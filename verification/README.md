# A verified model of h2pp

h2pp is an HTTP/2 client. This project models its three hard components in Dafny and proves what they
promise.

- **HPACK** (RFC 7541): the Huffman writer with its 64-bit accumulator and the reader with its 8-byte
  window, the integer code, both dynamic tables with their eviction and the encoder's pointer index, the
  static table, the encoder and the decoder. The main result is the round trip of a whole session: the
  decoder returns the very fields of every block and both dynamic tables stay equal, and the exact
  condition for it. The Huffman table is proved to be the canonical complete code.
- **Frame reassembly and the receive window** (sections 4.1 and 6.9 of RFC 7540): the incremental parser
  dispatches the same frames however the bytes are split, and no dispatched frame underflows the window.
- **Requests**: the fragmentation of header lists, the splitting of bodies, and exactly one completion of
  every request over all interleavings.

`dafny verify dfyconfig.toml` checks everything.

## How the model reads

- Octets are numbers below 256, bit strings are sequences of booleans with the most significant bit first,
  and machine words are natural numbers with explicit wrap-around (`Wrap64`, `Wrap32`, `ShiftLeft`).
- A call ends in a value, an exception or behaviour that C++ does not define; the last is `Undefined`.
  Undefined are a shift by a negative count, a read behind the last slice of a body, and the dereference
  of an empty queue slot.
- Objects that the source updates in place are classes, with loops proved against specification
  functions. Code tables are parameters of the general lemmas; `HuffmanTable` and `StaticTable` hold the
  literal tables of the program, and `ConnectionRoundTrip` puts them in.
- The memory around a string that the bit reader touches is a parameter, and no result depends on it.
- The encoder's index set is ordered by one order and searched by another. When both agree about a key that
  is in the set, the search returns it; otherwise it is modelled as returning any element or none, and the
  encoder's choices as any representation consistent with that.
- Whether the handler of a received frame throws is an arbitrary function of the frames before it.

## Where the code does not do what one would expect

Each of these has a lemma with a concrete input and the exact condition under which the property holds.

- A DEFAULT field with a new name is inserted by the decoder and not by the encoder (`NewNameDiverges`,
  `StepAgreesIff`), and an entry larger than the table empties the one table and not the other
  (`OversizedDiverges`, `InsertsAgreeIff`).
- The eviction loop compares a wrapping excess with zero and can empty the table (`EvictionCanEmpty`,
  `EvictionMinimalIff`).
- A code that reaches 32 bits from its octet boundary cannot be read (`LongCodeLost`, `HuffmanRoundTrip`).
- The tenth continuation octet of an integer loses bits (`TenthOctetLosesBits`, `DecodeAgreesIff`).
- The command octet of a new name is not charged (`NewNameOverruns`, `BlockLength`), so that a frame of the
  largest size can exceed it and the peer fails (`FrameTooLarge`, `EmittedFitIff`).
- A body whose frames leave the first slice early is never ended (`TwoSlicesNeverEnd`, `BodySplitIff`), and
  one that has been sent is due again (`DueAfterEnd`, `PrepareUndefinedIff`).
- A stream whose turn comes when it has nothing to send keeps its mark and loses its slot
  (`PassedStaysHalfClosed`, `StuckIff`).
- Erasing a stream looks through queue slots that earlier erasures have emptied (`EmptySlotMet`,
  `StepUndefinedIff`, `RunDefinedIff`); on the actions alone, see `QuietRunsDefinedIff` and `SpacedRunsDefined`.

## Model

| member | source | states |
|---|---|---|
| Connections.ConnectionRoundTrip | lib/hpack/encoder.cpp:16-127 | With the program's own Huffman and static tables, for every sequence of `encode` calls (any limits, any configuration in between) whose encoded fields are suitable, decoding the outputs in order on a fresh decoder returns exactly the fields of every block, and after every block both dynamic tables hold the same list |
| Connections.SuitableSession | lib/hpack/decoder.cpp:34-109 | The same for any valid code table, any static table and any start state |
| Sessions.SessionFaithfulIff | lib/hpack/encoder.cpp:16-127 | The one decoder of the session returns the fields of every call, holds the encoder's table before and after each call, and the tables are equal after every single field, if and only if every field to be indexed has a static name and an entry no larger than the table (or finds it empty), and every Huffman-coded string starts each code where the reader can take it |
| Sessions.DecodedSound | lib/hpack/decoder.cpp:34-109 | A block that is decoded with equal tables throughout has only kept fields and legible strings |
| Connections.Connection | lib/hpack/encoder.cpp:14-127 | An encoder object and a decoder object over a whole connection: the calls are a session of the encoder, each sends exactly as many fields as its limit admits, the next one being refused, and the decoder object returns exactly the fields sent |
| Connections.ProgramConnection | lib/hpack/encoder.cpp:14-127 | The same with the literal Huffman and static tables of the program |
| Connections.Transfer | lib/hpack/decoder.cpp:34-53 | One call: the longest prefix that the limit admits is sent, the decoder object returns it, and the two tables follow each other |
| Connections.TakeBlock | lib/hpack/decoder.cpp:34-53 | A decoder object whose table equals the encoder's returns the fields of an emitted block and follows the encoder's table |
| SessionLimits.NewNameDiverges | lib/hpack/encoder.cpp:117-123 | The empty DEFAULT field, which has a new name: the encoder sends it without inserting it, and the decoder inserts it on reading these bytes |
| SessionLimits.CookieFitsIff | lib/hpack/dynamic_table.h:30-30 | An entry counts 32 octets more than its name and value: `cookie` fits the table with up to 4058 octets of value |
| SessionLimits.NewNameOverruns | lib/hpack/encoder.cpp:95-118 | The same field is sent with a limit of two bytes and takes three |
| SessionLimits.OversizedDiverges | lib/hpack/dynamic_table.cpp:24-25 | A session with the program's own tables: `cookie` with a short value, then with one of 4059 octets, whose entry is a byte larger than the table. The encoder emits both and keeps only the second entry; the decoder reads both fields and keeps both entries |
| SessionLimits.LongCodeLost | lib/hpack/bitstream.cpp:23-23 | A value of ten octets that the encoder, with its own tables, sends Huffman-coded and the decoder cannot read |
| SessionLimits.LongCodeUnreadable | lib/hpack/bitstream.cpp:23-23 | For any table: a code of at least 26 bits behind six codes of 5 bits cannot be read |
| SessionLimits.LongCodeEncoded | lib/hpack/encoder.cpp:129-140 | Such a string with three more short codes behind it is Huffman-coded at the default rate |
| RequestExample.EncodeRequest | tests/test_hpack.cpp:16-70 | The encoder object, new and with the program's tables, encodes the first request of appendix C.4 of RFC 7541 to exactly the 17 octets given there, all four fields at once |
| RequestExample.RequestEncoded | tests/test_hpack.cpp:16-70 | Any block that the encoder may emit for that request is those octets, and the decoder makes the request of them; both tables then hold the authority |
| RequestExample.AuthorityPacked | lib/hpack/huffman.cpp:10-268 | `www.example.com` packs to f1 e3 c2 e5 f2 3a 6b a0 ab 90 f4 ff |
| Sessions.SessionRoundTrip | lib/hpack/decoder.cpp:34-109 | The same round trip for any valid code table, any static table, any start state and any call of the session |
| Sessions.FaithfulIff | lib/hpack/decoder.cpp:34-109 | The exact condition for one block |
| Sessions.SuitableSound | lib/hpack/encoder.cpp:27-90 | What a caller can see of a field beforehand (index type, static name, size, code lengths) is enough in every reachable state |
| Sessions.BlockSound | lib/hpack/encoder.cpp:27-124 | A block of suitable fields is kept and legible as a whole |
| Blocks.BlockRoundTrip | lib/hpack/decoder.cpp:34-53 | A block whose fields are all kept decodes to exactly its fields with the encoder's table, if its strings are legible, and has an undefined outcome otherwise |
| Blocks.BlockThen | lib/hpack/decoder.cpp:45-53 | Whatever bytes follow a block are decoded in the state the block leaves |
| Blocks.TablesAgreeIff | lib/hpack/encoder.cpp:79-124 | Both tables are the same list after every field of a block if and only if every field is kept |
| Blocks.StepAgreesIff | lib/hpack/encoder.cpp:82-84 | One field leaves both tables equal exactly when it is not inserted by the decoder, or its name is static and it is no larger than the table, or the table is empty |
| Blocks.AlwaysReachable | lib/hpack/encoder.cpp:27-90 | In every reachable encoder state each dynamic name is a static name, and the table is within its maximum unless it holds one larger entry only |
| Blocks.InsertReachable | lib/hpack/indexed_dynamic_table.cpp:37-50 | An insertion under a static name keeps the reachable-state invariant |
| Blocks.ChosenSendable | lib/hpack/encoder.cpp:129-140 | Every string the encoder chooses to write has a length that the integer code can carry |
| Blocks.BlockLength | lib/hpack/encoder.cpp:95-123 | A block is exactly as long as what it was charged for, plus one octet for every new name |
| Encoders.Encoder.Encode | lib/hpack/encoder.cpp:16-127 | The longest prefix of the fields that the limit admits is emitted: its charge is within the limit and that of the next field exceeds what is left; the table is the one these fields leave, so a field that did not fit changed nothing; the buffers are well formed and hold exactly the block, within the limit and one octet per new name |
| Encoders.AllAreSent | lib/hpack/encoder.cpp:16-127 | A list whose names and values, with ten octets more per field, are within the limit goes out as a whole |
| Encoders.FirstIsSent | lib/hpack/encoder.cpp:23-124 | A first field for which there is that much room is sent |
| Encoders.ChargeAtMost | lib/hpack/encoder.cpp:129-140 | No field is charged more than its name, its value and ten octets |
| Encoders.Encoder.EncodeField | lib/hpack/encoder.cpp:23-124 | One field: the representation chosen, its charge, the bytes written and the table, or nothing at all when it does not fit. A field to be indexed goes out by its index when its pair is in the static table, or in the index of the dynamic one with both orders agreeing about it; one that is inserted is in that index afterwards |
| Encoders.Encoder.Lookup | lib/hpack/encoder.cpp:27-30 | Any index other than -1 resolves to the field's own name, and to its value when flagged; -1 exactly for names that are not static; pairs of the static table, and those that the dynamic index can find, are flagged |
| Encoders.EmitIndexed | lib/hpack/encoder.cpp:32-46 | A field sent by index: written if it fits, otherwise nothing changes |
| Encoders.EmitIndexedName | lib/hpack/encoder.cpp:53-80 | A literal with an indexed name: written if it fits, otherwise nothing changes |
| Encoders.EmitNewName | lib/hpack/encoder.cpp:95-120 | A literal with a new name: written if its charge, which leaves out the command octet, fits |
| Encoders.MeasureIndexedName | lib/hpack/encoder.cpp:58-77 | The three partial size checks refuse exactly the fields whose charge exceeds the bytes left |
| Encoders.MeasureNewName | lib/hpack/encoder.cpp:95-115 | The four partial size checks refuse exactly the fields whose charge exceeds the bytes left |
| Encoders.Measure | lib/hpack/encoder.cpp:129-140 | The announced size is the size of what will be written for the string |
| Encoders.Encoder.SetConfig | lib/hpack/encoder.h:37-38 | A new configuration leaves the dynamic table and its size alone |
| Encoders.Encoder.constructor | lib/hpack/encoder.cpp:14-14 | A new encoder has an empty table of 4096 bytes |
| Decoders.Decoder.Decode | lib/hpack/decoder.cpp:34-53 | The loop over commands computes the block decoding function, and on a failure leaves the state of the commands before it |
| Decoders.Decoder.Execute | lib/hpack/decoder.cpp:47-50 | One command appends its field, moves the span and changes the table as specified; a failing one changes nothing |
| Decoders.Decoder.Index | lib/hpack/decoder.cpp:55-63 | The indexed representation, with its failures for index zero, a missing entry and an oversized field |
| Decoders.Decoder.ChangeTableSize | lib/hpack/decoder.cpp:65-69 | A size update does what `SizeUpdate` states of it: it shrinks the table and sets its maximum; a failing one changes nothing |
| Decoders.Decoder.LiteralWithoutIndex | lib/hpack/decoder.cpp:88-109 | The literal representations, whatever bytes lie around the source |
| Decoders.Decoder.LiteralName | lib/hpack/decoder.cpp:93-102 | The name of a literal: its own string or that of a table entry |
| Decoders.DecodeCmdIs | lib/hpack/decoder.cpp:14-29 | The mask tests split the octets into the five ranges of section 6 of RFC 7541 |
| Wire.FieldRoundTrip | lib/hpack/decoder.cpp:55-109 | Every representation of a field, followed by anything, is decoded to that field and the bytes behind it exactly when its strings are legible, and is undefined otherwise |
| Wire.IndexedRoundTrip | lib/hpack/decoder.cpp:55-63 | The round trip of an index |
| Wire.LiteralRoundTrip | lib/hpack/decoder.cpp:88-109 | The round trip of a literal with an indexed or a new name |
| Wire.LiteralStep | lib/hpack/decoder.cpp:71-86 | All three literal commands read alike; only the incremental one changes the table |
| TableWire.SizeUpdate | lib/hpack/decoder.cpp:65-69 | For every size n up to the largest integer: the octets of a size update to n evict down to n, set the maximum to n, yield no field and leave the octets behind them |
| TableWire.OpOnWire | lib/hpack/decoder.cpp:65-80 | A literal to be indexed and a size update do to the decoder's table what the operation of the table run says |
| TableWire.RunOnWire | lib/hpack/decoder.cpp:34-80 | Whatever insertions and size updates a peer sends, in any order and with anything behind them, the decoder returns the inserted fields and its table is the one that the run of operations leaves |
| WireErrors.IndexOnWire | lib/hpack/decoder.cpp:55-63 | Every index stands for the entry at that place of the static entries followed by the dynamic ones; zero and any larger one are refused |
| WireErrors.NameOnWire | lib/hpack/decoder.cpp:93-98 | A literal whose name has an index of no entry is refused, whatever its kind |
| WireErrors.CutRepresentation | lib/hpack/decoder.cpp:55-109 | A representation that is cut off after any of its octets is refused: nothing comes of a field whose octets are not all there |
| WireErrors.CutString | lib/hpack/string.cpp:57-83 | A string literal that is cut off anywhere is refused |
| WireErrors.CutInteger | lib/hpack/integer.cpp:36-67 | An integer that is cut off anywhere is refused |
| Wire.CommandRoundTrip | lib/hpack/constants.h:34-40 | The command bits survive whatever integer is coded behind them |
| TableRuns.RunsAgreeIff | lib/hpack/dynamic_table.cpp:18-62 | Over any run of insertions and size changes the encoder's and the decoder's lists are equal after every operation if and only if every entry goes into a table no smaller than it or an empty one |
| TableRuns.RunWithinMax | lib/hpack/dynamic_table.cpp:18-62 | Entries no larger than the maximum keep the sum of sizes within it over any run |
| TableRuns.RunHolds | lib/hpack/indexed_dynamic_table.cpp:37-57 | Without that condition the table is within its maximum or holds one entry only |
| DynamicTables.EvictionMinimalIff | lib/hpack/dynamic_table.cpp:47-62 | The eviction equals the minimal one of section 4.4 of RFC 7541 exactly when nothing has to leave, some run of oldest entries sums to the excess, or everything has to leave |
| DynamicTables.EvictLoopStops | lib/hpack/dynamic_table.cpp:52-59 | The wrapping loop stops exactly where the oldest run sums to the excess, and otherwise empties the table |
| DynamicTables.EvictionCanEmpty | lib/hpack/dynamic_table.cpp:52-59 | A two-entry table that is emptied where the minimal eviction keeps one entry |
| DynamicTables.InsertMinimalIff | lib/hpack/indexed_dynamic_table.cpp:37-50 | An entry that fits next to the others evicts nothing, in either table; one that does not, but is no larger than the table, evicts as section 4.4 of RFC 7541 says exactly when a run of oldest entries sums to the excess or everything has to leave |
| DynamicTables.InsertsAgreeIff | lib/hpack/indexed_dynamic_table.cpp:43-46 | From equal lists both insertions leave equal lists exactly when the entry is no larger than the table or the list is empty |
| DynamicTables.InsertKeepsNewest | lib/hpack/indexed_dynamic_table.cpp:37-50 | An insertion puts the entry in front of a newest-first prefix of the old list, within the maximum |
| DynamicTables.ShrunkFits | lib/hpack/dynamic_table.cpp:47-62 | Shrinking leaves no more than the requested size |
| TableObjects.DynamicTable.ShrinkTo | lib/hpack/dynamic_table.cpp:47-62 | The do-while loop returns the specified number of entries and keeps `table_size` equal to the sum of what stays |
| TableObjects.DynamicTable.Insert | lib/hpack/dynamic_table.cpp:18-28 | The decoder's insertion, keeping the size, the numbering and the distinctness of records |
| TableObjects.DynamicTable.InsertImpl | lib/hpack/dynamic_table.cpp:30-40 | The new record is in front with the next serial number modulo 2^32 |
| TableObjects.DynamicTable.UpdateSize | lib/hpack/dynamic_table.cpp:42-45 | The list is shrunk and the maximum set |
| TableObjects.DynamicTable.At | lib/hpack/dynamic_table.cpp:8-16 | The entry at a 1-based position, or an exception behind the end |
| TableObjects.DynamicTable.RecordIndex | lib/hpack/dynamic_table.cpp:64-66 | The position computed from serial numbers is the true one, or exceeds it by 2^32; it is the true one exactly when the numbers have not wrapped in between |
| TableObjects.SerialDistance | lib/hpack/dynamic_table.cpp:30-40 | Serial numbers are consecutive from back to front, modulo 2^32, so their distance is the distance in the list |
| TableObjects.TruncatedPosition | lib/hpack/indexed_dynamic_table.cpp:65-70 | Storing the position in an `int` undoes the wrap-around of serial numbers |
| TableObjects.IndexedDynamicTable.Insert | lib/hpack/indexed_dynamic_table.cpp:37-50 | The encoder's insertion; every pointer of the index is a live record, no two have equal keys, and the new key is in the index |
| TableObjects.IndexedDynamicTable.Evict | lib/hpack/indexed_dynamic_table.cpp:43-46 | List and index shrink together: exactly the keys of evicted records leave the index |
| TableObjects.IndexedDynamicTable.Unindex | lib/hpack/indexed_dynamic_table.cpp:45-45 | Exactly the pointers whose key is that of an evicted record are removed |
| TableObjects.IndexedDynamicTable.PushFront | lib/hpack/indexed_dynamic_table.cpp:48-49 | The index gains the new record unless its key is there |
| TableObjects.IndexedDynamicTable.UpdateSize | lib/hpack/indexed_dynamic_table.cpp:52-57 | A size change keeps the agreement of index and list |
| TableObjects.IndexedDynamicTable.FieldIndex | lib/hpack/indexed_dynamic_table.cpp:59-74 | Whatever element the mismatched order finds, a hit is the true 1-based position of a record with that name, and the flag tells exactly whether the value is equal; a pair in the index is found when both orders agree about which elements come before it |
| HpackTables.EncoderTable.FieldIndex | lib/hpack/hpack_table.h:38-50 | Static pairs are always found; a flagged index resolves to the pair; an unflagged one is the static index of the name with another value, or, for names that are not static, the dynamic position without the static offset |
| HpackTables.EncoderTable.Insert | lib/hpack/hpack_table.h:32-34 | The insertion of the encoder's table |
| HpackTables.DecoderTable.At | lib/hpack/hpack_table.h:22-30 | The combined index space: zero fails, static entries first, then dynamic ones |
| HpackTables.DecoderTable.Insert | lib/hpack/hpack_table.h:32-34 | The insertion of the decoder's table |
| HpackTables.DecoderTable.UpdateSize | lib/hpack/hpack_table.h:36-36 | The size change of the decoder's table |
| StaticTable.FieldIndex | lib/hpack/static_table.cpp:232-248 | -1 exactly for unknown names; otherwise an entry of the name, with the value when flagged |
| StaticTable.FieldIndexFinds | lib/hpack/static_table.cpp:238-247 | When equal names are neighbours the flag is set exactly for the pairs of the table |
| StaticTable.StaticTableGrouped | lib/hpack/static_table.cpp:23-85 | In the 61 literal entries equal names are neighbours |
| StaticOrder.NamesAscend | lib/hpack/static_table.cpp:23-85 | From `accept-charset` on the names are in alphabetical order, but for `accept` |
| StaticOrder.StatusesAscend | lib/hpack/static_table.cpp:23-85 | The entries of `:status` are in the order of their codes |
| HuffmanReader.HuffmanRoundTrip | lib/hpack/string.cpp:13-55 | Reading inverts writing exactly when every code starts fewer than 32 bits, its own included, from its octet boundary; otherwise the outcome is undefined |
| HuffmanReader.AcceptedIff | lib/hpack/string.cpp:13-55 | Whatever octets are read: the reader returns a string if and only if their bits are the codes of that string, each readable where it starts, followed by fewer than eight ones or by a readable EOS |
| HuffmanReader.ShortCodesReadable | lib/hpack/bitstream.cpp:11-25 | Strings whose codes have at most 24 bits can be read at every position |
| HuffmanReader.ReadsBack | lib/hpack/string.cpp:22-52 | From the end of the codes already read, the reader returns exactly the rest |
| HuffmanReader.TryFindsSymbol | lib/hpack/string.cpp:34-41 | Ascending trial lengths find the symbol whose code stands there, because no code is a prefix of another |
| HuffmanReader.CodeIsNotPadding | lib/hpack/string.cpp:23-29 | The padding test never drops a symbol, because no code of at most 7 bits is all ones |
| HuffmanStrings.ReadHuffmanStr | lib/hpack/string.cpp:13-55 | The nested loops over the bit stream compute the bit-level reader, whatever bytes lie around the string |
| HuffmanStrings.FindSymbol | lib/hpack/string.cpp:31-41 | The trial of code lengths |
| HuffmanStrings.IsPadding | lib/hpack/string.cpp:23-29 | The mask test is true exactly when the remaining bits are all ones |
| HuffmanTable.TableIsValid | lib/hpack/huffman.cpp:10-268 | The 257 literal codes are left-aligned, have trial lengths, are prefix-free, and none of at most 7 bits is all ones |
| HuffmanCanonical.CanonicalOrder | lib/hpack/huffman.cpp:10-268 | The codes are in the canonical order: one is less than another exactly when it is shorter, or as long and of a smaller symbol |
| HuffmanCanonical.CanonicalCode | lib/hpack/huffman.cpp:10-268 | In that order each code is the one before it plus the number of 32-bit words that begin with that one, from zero until the words are used up |
| HuffmanCanonical.CompleteCode | lib/hpack/huffman.cpp:10-268 | Every 32-bit word begins with exactly one code |
| HuffmanCanonical.ShortCodes | lib/hpack/huffman.cpp:10-268 | The symbols that have codes of 5, 6, 7 and 8 bits |
| Huffman.EstimateIsLength | lib/hpack/huffman.cpp:335-339 | The estimate is the number of bits of the concatenated codes |
| Huffman.PrefixMeansInterval | lib/hpack/huffman.cpp:10-268 | A code that is a prefix of another one has the other's word in its interval of left-aligned words |
| Huffman.DecodeFindsSymbol | lib/hpack/huffman.cpp:322-329 | The lookup of a symbol's own code finds the symbol |
| Huffman.DecodeRejectsPrefix | lib/hpack/huffman.cpp:322-329 | The lookup of a proper prefix of a code finds nothing |
| EncoderStreams.EncoderStream.EncodeString | lib/hpack/encoder_stream.cpp:21-47 | The 64-bit accumulator, with its stale high bits, writes exactly the concatenated codes padded with ones to an octet boundary |
| EncoderStreams.EncoderStream.PutCode | lib/hpack/encoder_stream.cpp:24-37 | One code: the octets written and the bits kept together are the old bits and the code |
| EncoderStreams.EncoderStream.PutTail | lib/hpack/encoder_stream.cpp:39-46 | The last octets are the kept bits and fewer than eight ones |
| EncoderStreams.EncoderStream.PushBack | lib/hpack/encoder_stream.cpp:12-19 | Bytes beyond the budget are dropped and reported, others appended and charged |
| EncoderStreams.EncoderStream.WriteString | lib/hpack/encoder_stream.cpp:49-61 | Length and string are appended without charge |
| EncoderStreams.EncoderStream.Flush | lib/hpack/encoder_stream.h:23-26 | The buffers are handed over with all their bytes and the budget is restored |
| HuffmanWriter.Accept | lib/hpack/encoder_stream.cpp:26-36 | The flush of whole octets and the shift of the code into the accumulator keep the bit sequence |
| HuffmanWriter.TailBytes | lib/hpack/encoder_stream.cpp:41-45 | The tail word holds the kept bits followed by ones |
| HuffmanWriter.PackedSize | lib/hpack/encoder.cpp:130-132 | The number of octets written is the estimate rounded up to octets |
| HuffmanWriter.PackedUnique | lib/hpack/encoder_stream.cpp:39-46 | No other octets spell the codes padded with fewer than eight ones |
| StringCodec.StringRoundTrip | lib/hpack/string.cpp:59-83 | A string literal is read back, with its exact length, exactly when it is legible, and is undefined otherwise |
| StringCodec.EstimateIsPayload | lib/hpack/encoder.cpp:129-140 | The estimated size is the size of the chosen representation, never more than the string |
| StringCodec.EncodedIff | lib/hpack/encoder.cpp:129-140 | A string is Huffman-coded if and only if its packed form is shorter and, from ten octets on, at most the configured percentage of it |
| StringCodec.Decode | lib/hpack/string.cpp:59-83 | The string decoder computes its specification |
| BitStreams.IBitStream.TakeBits | lib/hpack/bitstream.cpp:11-25 | The result is the addressed bits left-aligned in 32 bits exactly when offset%8 + len < 32, whatever bytes lie outside the span; beyond that the shift is undefined |
| BitStreams.IBitStream.CommitBits | lib/hpack/bitstream.cpp:27-29 | The position advances and stops at the end |
| BitStreams.SelectedBits | lib/hpack/bitstream.cpp:13-22 | The masked window holds exactly the addressed bits |
| Integers.IntegerRoundTrip | lib/hpack/integer.cpp:7-67 | For every prefix, every value up to 2^24-16 and any trailing bytes, decoding returns the value and the exact length |
| Integers.IntegerShortest | lib/hpack/integer.cpp:36-67 | No shorter byte string decodes to the same value |
| Integers.IntBytesLength | lib/hpack/integer.cpp:12-33 | The encoding fits the 5-byte array |
| Integers.DecodeAgreesIff | lib/hpack/integer.cpp:52-64 | The decoder agrees with unbounded arithmetic exactly when the number ends within nine continuation octets, overflows before the tenth, or has a tenth octet whose bits survive the shift |
| Integers.TenthOctetLosesBits | lib/hpack/integer.cpp:59-59 | An 11-octet integer whose value is 127 + 2^64 and which is read as 127 |
| Integers.DecodeIntBounds | lib/hpack/integer.cpp:36-67 | A decoded value is within the limit and used at least one and no more than all octets |
| Integers.Encode | lib/hpack/integer.cpp:7-34 | The writing loop computes the encoding in at most five octets, or throws above the limit |
| Integers.Decode | lib/hpack/integer.cpp:36-67 | The reading loop computes the decoding with its three failures |
| StreamBuffers.Collect | lib/utils/streambuf.cpp:26-45 | For every sequence of pushes the flushed buffers concatenate to the pushed bytes in order, every buffer but the last is full, and sizes are positive multiples of 64 |
| StreamBuffers.StreamBuf.PushBack | lib/utils/streambuf.cpp:26-39 | The bytes are appended; the copy loop ends because there is always room |
| StreamBuffers.StreamBuf.CheckSize | lib/utils/streambuf.cpp:47-63 | There is free space at the end of the chain and no byte has changed |
| StreamBuffers.StreamBuf.Flush | lib/utils/streambuf.cpp:41-45 | The chain is handed over and an empty one is left |
| StreamBuffers.AlignSizeHolds | lib/utils/streambuf.cpp:14-20 | The aligned size is a multiple of 64 that holds the size |
| Words.CeilOrder2Rounds | lib/utils/utils.h:30-32 | The result is the least multiple of the power of two that is no smaller |
| Buffers.Buffer.Commit | lib/utils/buffer.h:70-75 | As many bytes as fit are appended |
| Buffers.Buffer.Consume | lib/utils/buffer.h:90-96 | The first bytes are dropped and the rest moved to the front |
| Buffers.Buffer.Assign | lib/utils/buffer.h:31-38 | A move assignment takes the contents over and empties the source |
| Buffers.Buffer.Move | lib/utils/buffer.h:26-29 | A move construction takes the contents over and empties the source |
| Reassembly.ChunkingIndependence | lib/base_client.cpp:66-133 | However a byte stream is split into reads, the dispatched frames, the failure and the unparsed tail are those of the sequential parse of the whole stream |
| Reassembly.ConnectionParses | lib/client_session.h:121-137 | In every reachable state of a connection the dispatched frames and the buffered tail are the bytes received, without gaps, and are the parse of the whole stream |
| Reassembly.Receiver.OnRead | lib/base_client.cpp:66-133 | The frames of the buffer are dispatched as the sequential parse does; unless something fails the returned buffer holds exactly the tail and has room for the next read |
| Reassembly.Receiver.ReadFrames | lib/base_client.cpp:74-120 | The loop with its moves, copies and enlargement |
| Reassembly.Receiver.TakeFrame | lib/base_client.cpp:81-101 | A complete frame is dispatched once, and reading goes on right behind it |
| Reassembly.Receiver.DispatchWhole | lib/base_client.cpp:83-90 | A DATA frame that is the whole buffer is dispatched with the buffer, which is left empty |
| Reassembly.Receiver.DispatchPart | lib/base_client.cpp:91-97 | Any other frame is dispatched with the same bytes, copied for DATA |
| Reassembly.Receiver.Enlarge | lib/base_client.cpp:105-110 | The bigger buffer holds the same bytes and the whole frame |
| Reassembly.Connection.OnDataRead | lib/client_session.h:129-137 | One read of any size that fits keeps the connection invariant |
| Reassembly.ParseSplit | lib/base_client.cpp:74-101 | Parsing a part and then the rest is parsing the whole |
| Reassembly.ParseConserves | lib/base_client.cpp:99-101 | Dispatched frames and tail together are the stream, and every dispatched frame is complete, of a known type and within the size limit |
| Reassembly.ParseInverts | lib/frame.cpp:42-68 | Whole frames written one after the other are dispatched as they were written |
| Reassembly.ParseRest | lib/base_client.cpp:103-112 | What is left is the beginning of a single frame that passes the checks |
| Reassembly.ParseFailsIff | lib/frame.cpp:56-69 | The parse of any bytes fails if and only if it stops at a header of an unknown type or a longer payload than is allowed, or the handler of a dispatched frame throws |
| Frames.HeaderOfPrefix | lib/frame.cpp:42-68 | The checks and the size depend on the first nine octets only |
| Windows.DispatchedFits | lib/base_client.cpp:66-101 | Whatever bytes the peer sends, and whenever it acknowledges the settings in between, every frame dispatched from these bytes fits the window at its turn |
| Windows.NoUnderflow | lib/base_client.cpp:135-156 | For every behaviour of the peer no frame of at most 16384+9 bytes exceeds what is left of the connection window |
| Windows.AlwaysBalanced | lib/base_client.cpp:135-156 | In every reachable state the deficit is below the trigger, and the size is 65535 plus all increments less all frame bytes received |
| Windows.EventBalanced | lib/dummy_window.cpp:7-19 | Every event keeps that balance, and announces zero only for a second acknowledgement at a full window |
| Windows.IncrementsInRange | lib/base_client.cpp:208-218 | On a first connection every increment is in 1..2^31-1, as section 6.9 of RFC 7540 demands |
| Windows.LaterSync | lib/base_client.cpp:211-217 | A further acknowledgement announces zero exactly when the window is full |
| Windows.RefillIff | lib/dummy_window.cpp:7-19 | Over every run: a frame announces an increment if and only if the bytes received since the window was last full have reached the threshold, and it announces exactly these |
| Windows.WindowIs | lib/base_client.cpp:211-215 | Over every run: the window has the size of all streams together, with half of it as threshold, once the settings are acknowledged, and the initial size, with a quarter of it, before |
| Windows.DeficitIs | lib/dummy_window.cpp:7-10 | Over every run: what is missing from the window is what was received since it was last full |
| Windows.Client.OnReceiveFrame | lib/base_client.cpp:135-156 | The debit and the refill, in 32-bit arithmetic, follow the account |
| Windows.Client.OnSynced | lib/base_client.cpp:208-218 | The window object is replaced and the difference announced, as the account says, whose size and threshold are those of `WindowIs` |
| Windows.DummyWindow.Update | lib/dummy_window.cpp:7-19 | The whole deficit is announced when it has reached the trigger |
| Windows.DummyWindow.Dec | lib/dummy_window.h:17-17 | The 32-bit debit |
| StreamRuns.ExactlyOnce | lib/stream.cpp:200-208 | Over every run of sends, received frames, timers, transmissions and disconnects, in any order, the handler of a stream has been called exactly once if some action after its send completes it, and not at all otherwise; a half-closed or closed stream has called it; one that has not is still registered |
| StreamRuns.AllCompleted | lib/stream_registry.cpp:86-95 | After a disconnect every stream ever added, erased ones included, has called its handler exactly once |
| StreamRuns.StepSound | lib/stream.cpp:33-81 | One action adds a stream or not, and makes exactly the completed streams call their handlers |
| StreamRuns.StepUndefinedIff | lib/stream_registry.cpp:30-39 | The only undefined step is a frame for a registered stream that is closed afterwards, when an empty queue slot comes before every slot of that stream |
| StreamRuns.FindSlotUndefinedIff | lib/stream_registry.cpp:33-36 | The search for a slot is undefined exactly when an empty slot comes first |
| StreamRuns.EmptySlotMet | lib/stream_registry.cpp:33-36 | Two sends, then resets of both streams in the same order: the fourth action is undefined |
| StreamRuns.SpacedRunsDefined | lib/stream_registry.cpp:41-84 | Every run is defined in which a transmission of at least 16 bytes, or a disconnect, lies between any two frames for different streams that are resets or come after the end of their stream |
| StreamRuns.QuietRunsDefinedIff | lib/stream_registry.cpp:30-39 | A run without such a transmission is defined if and only if streams are reset against the order in which they were sent |
| StreamRuns.RunDefinedIff | lib/stream_registry.cpp:30-39 | Every run: it is defined if and only if, in each stretch between two rebuilds of the queue, every stream that is erased has a slot before those of all streams erased earlier in the stretch; and the empty slots at the end are exactly those of the streams erased since the last rebuild |
| StreamRuns.QueueAfter | lib/stream_registry.cpp:30-84 | One action: a rebuilt queue has no empty slot, and otherwise exactly the first slot of an erased stream becomes empty |
| StreamQueues.StuckIff | lib/stream_registry.cpp:41-84 | Over every run: the slots of the queue are those of distinct registered streams that are scheduled, and every half-closed stream is scheduled; a registered stream is scheduled without a slot, and so never served again, if and only if some transmission gave it its turn when it had nothing to send |
| StreamQueues.EndedAreClosed | lib/stream.cpp:162-170 | After a transmission a registered stream is half closed only if it was passed over so; when streams in the queue always have something to send, every stream that the peer has ended is closed by the next transmission |
| StreamQueues.PassedStaysHalfClosed | lib/stream_registry.cpp:68-70 | A run in which a stream is passed over, then ended, and stays half closed whatever is transmitted |
| StreamQueues.StepQueueSound | lib/base_client.cpp:48-57 | Every action keeps the queue sound, and makes exactly the streams stuck that it passes over |
| StreamQueues.EndSchedules | lib/stream.cpp:39-65 | A stream that the peer ends with DATA or HEADERS is half closed and scheduled, and put into the queue unless it was scheduled before |
| StreamQueues.FlushCloses | lib/stream.cpp:162-170 | A transmission leaves no stream half closed that has a slot, and closes a half-closed one |
| StreamQueues.TurnStates | lib/stream.cpp:162-177 | A turn closes a half-closed stream, opens any other one that has something to send and room for it, and leaves the rest as it is |
| StreamQueues.ServedInTurn | lib/stream_registry.cpp:54-84 | In the transmit loop a stream with a slot has exactly one turn, in the order of the slots, and is put back exactly when it has more to send |
| StreamQueues.NothingLeft | lib/stream_registry.cpp:86-95 | A disconnect closes the registered streams and empties map and queue; a limit below 16 changes nothing |
| StreamRuns.ServedKeeps | lib/stream_registry.cpp:54-84 | The transmit loop calls no handler and keeps every stream sound |
| Streams.Client.Run | lib/base_client.cpp:42-58 | The objects perform every sequence of actions exactly as the state machine says, up to the first undefined one, if there is one |
| Streams.Client.Perform | lib/base_client.cpp:42-58 | One action of the objects is one step of the state machine, and is undefined exactly when that is |
| Streams.Client.InitiateSend | lib/base_client.cpp:261-274 | A request becomes one fresh stream with the next id, registered and queued |
| Streams.Client.NextStreamId | lib/base_client.h:86-89 | The ids are the odd numbers in order, for the first 2^31 streams |
| Streams.StreamIdsRepeat | lib/base_client.h:86-89 | Two ids are equal exactly when 2^31 streams lie between them |
| Streams.Registry.AddStream | lib/stream_registry.cpp:8-13 | The map keeps an earlier stream of the same id, so no stream is lost exactly when there is none |
| Streams.Registry.Register | lib/stream_registry.cpp:8-13 | A stream with the next id extends the list, the map and the queue |
| Streams.Registry.Erase | lib/stream_registry.cpp:30-39 | The stream leaves the map and its slot is emptied, unless the search is undefined |
| Streams.Registry.InvokeForStream | lib/base_client.cpp:42-58 | The registry after a frame is that of the state machine, and undefined exactly when that is |
| Streams.Registry.Deliver | lib/base_client.cpp:48-48 | Only the addressed stream changes, as the frame says |
| Streams.Registry.Schedule | lib/base_client.cpp:53-55 | The stream is queued exactly when it is due |
| Streams.Registry.GetData | lib/stream_registry.cpp:54-84 | The registry after transmission is that of the state machine, for whatever the environment offers each stream |
| Streams.Registry.Serve | lib/stream_registry.cpp:55-76 | Every queued stream has its turn in order, and the next queue holds exactly those that are due again |
| Streams.Registry.ServeNext | lib/stream_registry.cpp:63-75 | One turn of the loop |
| Streams.Registry.ScheduledStream | lib/stream_registry.cpp:41-52 | The first slot that is not empty is taken off the queue, with the empty ones before it |
| Streams.Registry.OnTimer | lib/stream.cpp:115-119 | An expired timer completes its stream, erased or not |
| Streams.Registry.Reset | lib/stream_registry.cpp:86-95 | Exactly the registered streams are closed and completed, and map and queue are emptied |
| Streams.TakeTurn | lib/stream_registry.cpp:68-75 | A stream with something to send sends, and is due again if there is more |
| Streams.Stream.Finished | lib/stream.cpp:200-208 | The handler is called if it is still there, and never again |
| Streams.Stream.OnReceive | lib/stream.cpp:39-81 | END_STREAM and a reset complete the request; the state follows |
| Streams.Stream.Reset | lib/stream.cpp:33-37 | The stream is closed and completed |
| Streams.Stream.GetTxData | lib/stream.cpp:162-198 | A half-closed stream is closed, any other one is open when there is room; nothing is completed |
| Streams.Stream.CheckTxData | lib/stream.cpp:20-31 | A stream is scheduled once until it is served |
| HeaderEmission.SendHeaders | lib/stream.cpp:83-132 | Over any sequence of limits: with each one as many fields go out as it admits, so that fields are left only where the next one was refused. The frames are exactly these: one per non-empty block, HEADERS and then CONTINUATION, each with the bytes of its block, END_HEADERS on exactly the last one when nothing is left, END_STREAM on HEADERS without a body, and one empty DATA frame with END_STREAM behind a last continuation without a body; END_STREAM is on a frame exactly when there is no body and it is the first frame or that DATA frame. With limits that have room for any field, and no fewer of them than fields, nothing is left. Their payloads, decoded in order, give the fields sent, which with those left are the list |
| HeaderEmission.FramesEnd | lib/stream.cpp:106-131 | Of all frames of a list END_STREAM is on the HEADERS frame exactly when there is no body, and otherwise only on a DATA frame, which is there exactly when nothing is left, there is no body and the block did not fit one frame; it is then the single last frame, and empty |
| HeaderEmission.Drains | lib/stream.cpp:88-89 | With limits that have room for any field every call sends at least one, until nothing is left |
| HeaderEmission.SendSome | lib/stream.cpp:83-132 | One limit: the block sent, its frame, and what the peer's decoder object makes of it |
| HeaderEmission.HeaderSender.PrepareHeaders | lib/stream.cpp:83-132 | One frame carries the longest prefix of the list that the limit admits, and at least the first field when there is room for it; all bytes that are put out, the empty DATA frame included, are within the limit, but for new names, unless the subtraction of the frame headers wraps |
| HeaderEmission.HeaderSender.Emit | lib/stream.cpp:94-131 | The frame kind, its flags, and the empty DATA frame behind a last continuation |
| HeaderWire.SendOverWire | lib/stream.cpp:83-132 | End to end: a header list is encoded and framed with any limits and written as bytes. In whatever pieces these are read, the peer dispatches frames whose payloads decode to the fields sent, if the blocks fit its frame size; if one does not, the peer fails. They fit whenever the limits are from 18 up to that size and at most nine fields have names that are not static |
| HeaderWire.EmittedFitIff | lib/stream.cpp:94-131 | All emitted frames fit a frame size if and only if every block's charge and its number of new names do together |
| HeaderWire.FewNewNamesFit | lib/stream.cpp:88-89 | With limits from 18 up to the frame size, blocks with at most nine new names each fit |
| HeaderWire.FewUnnamedFit | lib/stream.cpp:88-89 | The same told by the header list: at most nine fields whose name is not in the static table |
| HeaderWire.NewNamesCounted | lib/hpack/encoder.cpp:27-30 | The new names of an emitted block are exactly its fields whose name is not in the static table |
| HeaderWire.RefusedAlways | lib/frame.cpp:56-64 | If the blocks do not fit, the peer fails, in whatever pieces it reads the bytes |
| HeaderWire.FramesRefused | lib/frame.cpp:56-64 | Frames of which one is too large: the peer fails there, whatever follows it and in whatever pieces it is read |
| HeaderLimits.FrameTooLarge | lib/stream.cpp:88-89 | With the program's own tables, 25 unindexed fields with an empty name and a value of 651 octets are one block under a limit of 16384; their charge is 16375, their payload 16400, and a peer with that frame size fails |
| HeaderWire.FramesArrive | lib/base_client.cpp:66-133 | Frames that are built and read in pieces of any size are dispatched complete and in order, with nothing left over |
| HeaderWire.WrittenWhole | lib/frame_builder.cpp:86-130 | A built frame passes the checks and reads back as itself |
| HeaderWire.WrittenOctets | lib/frame_builder.cpp:86-130 | The octets of a frame: 24 bits of length, the type, the flags with END_STREAM as bit 0 and END_HEADERS as bit 2, 32 bits of stream id, the payload |
| Frames.BuildRoundTrip | lib/frame_builder.cpp:86-130 | Length, type, flags, stream id and payload of a built frame are read back, whatever follows |
| Bodies.BodySender.PrepareBody | lib/stream.cpp:134-160 | The method emits the specified frame and state, and returns the size of a buffer it has moved away, which is zero |
| Bodies.PrepareUndefinedIff | lib/stream.cpp:134-160 | A call is undefined exactly when no slice is left or the payload size computed from the size of the body exceeds what is left |
| Bodies.DueAfterEnd | lib/stream.cpp:193-195 | A body that has been delivered is due again whenever there is room for two frame headers, and that call is undefined |
| Bodies.DeliveredEmpties | lib/stream.cpp:149-155 | A delivered body leaves no slice but keeps its size |
| Bodies.BodySplitIff | lib/stream.cpp:134-160 | A body of any non-empty slices, sent with limits above 9 that just suffice, is delivered with END_STREAM on exactly the last frame if and only if all frames but the last stay within the first slice |
| Bodies.OneSlice | lib/stream.cpp:134-160 | A body of one slice is always delivered |
| Bodies.LateNeverEnds | lib/stream.cpp:135-138 | After a slice has been used up without the rest no frame ends the stream any more |
| Bodies.TwoSlicesNeverEnd | lib/stream.cpp:134-160 | A concrete body of two slices of which no frame ends the stream |
| Bodies.TakeGives | lib/stream.cpp:143-157 | The copy loop takes the next bytes, however many slices they are in, and is undefined when there are too few |
| Bodies.PrepareGives | lib/stream.cpp:134-160 | The payload is the next bytes, the flag tells whether it equals the computed rest, and a slice that is used up leaves the offset behind |
| Bodies.BodySender.Fill | lib/stream.cpp:143-157 | The do-while loop computes the specified copy |

## Left out

- The sum of table entry sizes is a natural number: a wrap-around of `table_size` itself, which needs more than 2^64 bytes of entries, is not modelled; the excess of the eviction loop and the requested size do wrap.
- The perfect hash functions of the static and the Huffman table are modelled as the search they stand for.
- `hpack_size` limits of other settings, `max_table_size`, `max_header_list_size` and `min_dyntable_value_rate` are not used by the encoder and not modelled.
- Encoders.Encoder.EncodeField: a pair of the dynamic table that the index cannot find, because the two orders of `indexed_dynamic_table` disagree about it or its key was removed with an older equal one, may go out as a literal.
- StreamQueues.EndedAreClosed: that a stream in the queue has something to send is a condition on the actions, because the headers and the body of its request are not part of the state machine.
- StreamBuffers.StreamBuf.PushBack: spans within 4096 bytes of the 64-bit address range are excluded, as they cannot exist in memory; the same holds for `EncoderStream.PushBack`.
- TableObjects.IndexedDynamicTable.FieldIndex: tables of 2^31 entries or more are excluded; an `int` cannot hold their positions.
- Streams.Stream.OnReceive: the per-stream window and the response that is collected are not modelled, only the state and the completion.
- Padding and priority fields of received frames, and header blocks of other encoders that split a field across frames.
- Reassembly.Receiver.OnRead: after a failure the contents of the returned buffer are not stated, because the client is disconnecting and does not read again.
- HeaderEmission.HeaderSender.Emit: the flags are two booleans, which `HeaderWire` writes as bits; padding and priority are never set by the client.
- HeaderWire.SendOverWire: blocks of 2^24 octets or more are framed with a truncated length; what the peer then reads is not stated.
- Bodies.BodySplitIff: bodies with empty slices are excluded, as are limits that leave no room for payload or exceed 2^24-1, the largest frame size of the protocol.
- Streams.Client.Run: at most 2^31 streams are added, because ids repeat afterwards; received frames, timers and transmissions are not bounded; what happens after an undefined step is not stated.
- Streams.Registry.GetData: whether a stream has data to send and room to send it is an arbitrary function of the turn, so fairness and the transmit window are not modelled.
- Streams.Stream.GetTxData: the frames that are sent at a turn are modelled by themselves, in `HeaderEmission` and `Bodies`; here only the state matters.
- The transmit-side window: body bytes are not counted there and limits are not reduced by earlier use, so there is no bound to prove.
- Sockets, TLS, coroutines, mutexes, the settings handshake, ping, goaway, push and priority; a timer is an action that may happen at any time, and an acknowledged settings frame an event of the window.
- Requests and URLs, responses, error codes and methods: lookup and plumbing.
