# BSB/KAP chart decoder — Dafny model

A BSB/KAP nautical chart file is a run of ASCII header lines, each ended
by CRLF, then the token `1A 00`, then one bit-depth byte, then a
run-length-encoded raster of rows, each ended by a `00` byte. A final
`00` closes the raster. The TypeScript library decodes such files as they
stream in. This project models its core and proves properties of it:

- `ByteBuffer` (`stream_buffer.dfy`) models the incremental byte buffer
  `StreamBuffer`. It is a class holding a `seq<bv8>`. Its "try" reads
  either consume a whole unit or nothing. The constant
  `nullTerminatesValues` selects the variant in `src/parseStream.ts`,
  which also stops a value at a `00` byte.
- `ChartStream` (`chart_stream.dfy`) models the chunk-driven state
  machine. It comes in three nearly identical copies: the `ChartStream`
  transform, the closures inside `parseChart`, and `ParseStream`. One
  machine, parameterised by a `Variant`, covers all three. The machine is
  specified by pure step functions (`Next`, `Drain`, `Feed`). The class
  `ChartDecoder` implements them imperatively over a `StreamBuffer` and
  is proved equal to them.
- `ParseChart` (`parse_chart.dfy`) models `completeParse` and the `data`
  and `end` listeners that settle the promise `parseChart` returns.
- `Raster` (`raster.dfy`) models the mask tables, the base-128 row number,
  run decoding and `parseRasterRow`. It also models `writeRasterSegment`,
  which writes RGBA pixels in place into an `array<bv8>`.
- `Text` (`text.dfy`) models the text-entry tokenizer.
- `Metadata` (`metadata.dfy`) models the left fold that takes the chart
  size from `BSB` entries and palette colours from `RGB` entries.
- `Kap` (`kap_stream.dfy`) models the `KapStream` cursor over a fixed byte
  array.
- `Common` (`common.dfy`) holds `Option`, `Result`, the JavaScript-style
  out-of-range read `At`, and `Buffer.indexOf`.

The machine and `KapStream` keep the source's behaviour, quirks
included, within the limits listed under "## Left out". Where that behaviour looks unintended, "## Findings" shows the
discrepancy and proves a corrected definition beside it.

## Model

| member | source | states |
|---|---|---|
| ByteBuffer.StreamBuffer.constructor | src/streamBuffer.ts:1-2 | A new buffer is empty and keeps the variant flag it was given. |
| ByteBuffer.StreamBuffer.Push | src/streamBuffer.ts:4-6 | The contents become the old contents followed by the chunk. |
| ByteBuffer.StreamBuffer.Read | src/streamBuffer.ts:61-67 | Returns the first `length` bytes and keeps the rest; the two together are the old contents. |
| ByteBuffer.StreamBuffer.TryReadUntil | src/streamBuffer.ts:8-16 | When the delimiter first occurs at `i`, returns bytes `[0, i+2)` and drops exactly them; when it is absent, returns `None` and leaves the buffer unchanged. |
| ByteBuffer.StreamBuffer.TryReadValues | src/streamBuffer.ts:18-29 | Returns `MatchCount` of the old contents and the token; consumes the token's bytes when, and only when, that count equals the token length. Otherwise the buffer is unchanged. |
| ByteBuffer.MatchCount | src/streamBuffer.ts:21-22 | The count is at most `|values|+1`. It is `|values|+1` exactly when the buffer equals the token. Below that bound the buffer and token agree on the first `count` bytes. |
| ByteBuffer.CommonPrefixLength | src/streamBuffer.ts:21 | The length of the longest common prefix: the two agree up to it and differ just after it when both continue. |
| ByteBuffer.MatchCountFull | src/streamBuffer.ts:21-25 | The count equals the token length exactly when the token is a strict prefix of the buffer. |
| ByteBuffer.MatchCountZero | src/streamBuffer.ts:21-28 | The count is 0 exactly when the buffer is empty or starts with a different byte. |
| ByteBuffer.MatchCountExactToken | src/streamBuffer.ts:21-28 | The count is the common-prefix length in every case but one: a buffer equal to the token gives `|values|+1`, although the common prefix is the whole token. |
| ByteBuffer.CommonPrefixFull | src/streamBuffer.ts:24-25 | The common-prefix length equals the token length exactly when the buffer starts with the token. This includes a buffer that is the token. |
| ByteBuffer.StreamBuffer.TryReadLength | src/streamBuffer.ts:31-37 | With at least `length` bytes, returns exactly the first `length` and drops them; otherwise returns `None` and changes nothing. |
| ByteBuffer.StreamBuffer.TryReadVariableLengthValue | src/streamBuffer.ts:39-59 | Returns `VariableLengthValue` of the old contents and consumes exactly the returned number of bytes, or nothing on `None`. |
| ByteBuffer.ValueLength | src/streamBuffer.ts:45-54 | A length is found only at a terminating byte: `<= 127`, and in the `src/parseStream.ts` variant nothing is `00` up to it. With no such byte there is no length. |
| ByteBuffer.TerminatorUnique | src/streamBuffer.ts:45-54 | At most one position terminates a value. |
| ByteBuffer.VariableLengthValueSuccess | src/streamBuffer.ts:45-58 | Success gives k values, each `< 128`, taken from k bytes. Bytes `0..k-2` are `> 127` and byte `k-1` is `<= 127`. |
| ByteBuffer.VariableLengthValueUnterminated | src/streamBuffer.ts:45-49 | When every byte has the high bit set, including the empty buffer, the result is `None`. |
| ByteBuffer.VariableLengthValueNullBeforeEnd | src/parseStream.ts:84-103 | In the null-aware variant, a `00` before the value terminates gives `None`. |
| ByteBuffer.ContinuedRoundTrip | src/streamBuffer.ts:39-59 | Groups written with the continuation bit on all but the last byte are read back as the same groups, whatever follows. |
| ByteBuffer.StreamBuffer.IndexOf | src/parseStream.ts:29-31 | The least position where the values occur, or -1. It is a function over the buffer, so the buffer is only read. |
| Common.IndexOf | src/streamBuffer.ts:9 | `Buffer.indexOf`: `-1`, or a position where the values occur with no earlier occurrence. |
| Common.IndexOfAfter | src/streamBuffer.ts:9 | In `a + v + b` where no byte of `a` starts `v`, the first occurrence of `v` is at `|a|`. |
| ChartStream.TextSegmentEnd | src/chartStream.ts:68-77 | In Text, a full `1A 00` match consumes it, moves to BitDepth and emits nothing. |
| ChartStream.TextPartialMatch | src/chartStream.ts:68-77 | In Text, a partial match of `1A 00` makes no progress and changes nothing. |
| ChartStream.TextLine | src/chartStream.ts:79-88 | In Text, a line up to its CRLF is consumed and emitted as one text record; the machine stays in Text. |
| ChartStream.BitDepthStep | src/chartStream.ts:90-104 | BitDepth consumes exactly one byte, stores it, emits a bit-depth record in the `ChartStream` variant only, and moves to RasterSegment. |
| ChartStream.BitDepthWaits | src/chartStream.ts:90-104 | With an empty buffer, BitDepth makes no progress. |
| ChartStream.RasterSegmentEnd | src/chartStream.ts:106-114 | A full `00` match in RasterSegment consumes it, ends the stream and stops the loop. |
| ChartStream.RasterSegmentToRow | src/chartStream.ts:106-120 | A buffer that is empty, or starts with a byte other than `00`, moves to RasterRow without consuming. |
| ChartStream.RasterRowEnd | src/chartStream.ts:124-136 | A full `00` match in RasterRow emits the accumulated row, clears it and returns to RasterSegment. |
| ChartStream.RasterRowEndEmpty | src/index.ts:118-130 | An empty row at a `00` is emitted as an empty row, except in `parseChart`, where `parseRasterRow([])` throws and the machine fails. |
| ChartStream.RasterRowValue | src/chartStream.ts:139-147 | Otherwise one complete variable-length value is consumed and appended to the row. |
| ChartStream.ExactRasterEndStalls | src/chartStream.ts:106-130 | A buffer that is exactly `00` in RasterSegment or RasterRow makes no progress and is left in place. |
| ChartStream.RowWaits | src/chartStream.ts:124-147 | An empty buffer in RasterRow makes no progress. |
| ChartStream.NextProgress | src/chartStream.ts:52-58 | Every step that reports progress lowers the weight, so the drive loop terminates. |
| ChartStream.DrainStep | src/chartStream.ts:52-58 | After a step with progress, the drive loop continues from the new state. |
| ChartStream.DrainStop | src/chartStream.ts:52-58 | The loop stops at the first step without progress and keeps that step's state. |
| ChartStream.DrainQuiescent | src/chartStream.ts:52-58 | After the loop no step makes progress, and running it again changes nothing. |
| ChartStream.StopIsStable | src/chartStream.ts:52-58 | A step without progress leads to a state whose next step again makes no progress and changes nothing. |
| ChartStream.TerminalIsFinal | src/chartStream.ts:106-114 | After the end (or a failed row), no step makes progress and further chunks change nothing. What `_flush` does after the end is stated by `FlushAfterEnd`. |
| ChartStream.InitialInv | src/chartStream.ts:33-36 | The initial state satisfies the order invariant. |
| ChartStream.NextInv | src/chartStream.ts:68-148 | Every step keeps the invariant. The invariant says that records come in consumption order (all text, then at most one bit-depth record, then rows) and that each record fits the variant. It also says the bit depth is known exactly from BitDepth on, and that no row is pending outside RasterRow. |
| ChartStream.DrainInv | src/chartStream.ts:52-58 | The drive loop keeps the invariant. |
| ChartStream.FeedAllInv | src/chartStream.ts:44-50 | Any sequence of chunks keeps the invariant. |
| ChartStream.NextExtends | src/chartStream.ts:68-148 | A step only appends records and only drops bytes from the front of the buffer. |
| ChartStream.DrainExtends | src/chartStream.ts:52-58 | So does the drive loop. |
| ChartStream.FeedExtends | src/chartStream.ts:44-50 | Feeding a chunk keeps the old records as a prefix. After the end it changes nothing. Otherwise the buffer left is a suffix of the old buffer followed by the chunk. |
| ChartStream.DrainLines | src/chartStream.ts:79-88 | A run of well-formed header lines is consumed into one text record per line, in order. |
| ChartStream.DrainValues | src/chartStream.ts:139-147 | A run of encoded values is consumed into the pending row, in order. |
| ChartStream.DrainRows | src/chartStream.ts:106-148 | A run of rows, each ended by `00`, is emitted as one row record per row, in order, decoded with the stored bit depth in `parseChart`. |
| ChartStream.DrainBitDepth | src/chartStream.ts:68-104 | `1A 00` and the bit-depth byte move the machine to RasterSegment with that bit depth stored. |
| ChartStream.DrainRasterEnd | src/chartStream.ts:106-114 | The raster end token followed by at least one byte ends the stream with those bytes left unread. |
| ChartStream.WellFormedChart | src/chartStream.ts:44-148 | Fed a whole well-formed chart in one chunk, the machine ends with every header line as a text record, then the bit-depth record (`ChartStream` only), then every row, in order. |
| ChartStream.FlushAfterDrain | src/chartStream.ts:38-42 | Before the end token, `_flush` changes nothing: the loop of the last chunk has already stopped. |
| ChartStream.FlushAfterEnd | src/chartStream.ts:38-42 | After the end token, `_flush` reads the bytes behind it as raster: a 7-bit byte and a `00` there are emitted as one more row, and the loop goes on from the bytes after them. |
| ChartStream.LoneEndChunkStalls | src/streamBuffer.ts:21-28 | In RasterRow with an empty buffer, a chunk that is the lone byte `00` is never consumed. The pending row is not emitted, and nothing else changes. |
| ChartStream.ChunkEndsAfterBitDepth | src/chartStream.ts:106-120 | A chunk that ends just after the bit-depth byte leaves the machine in RasterRow with an empty row. |
| ChartStream.ChunkingMatters | src/chartStream.ts:107-130 | The same bytes give different results when split differently. In one chunk the chart ends with no row. Split after the bit-depth byte, an empty row is emitted and a new row begins. In `parseChart` the machine fails instead. |
| ChartStream.LastRowPendingAtEnd | src/streamBuffer.ts:21-28 | When the last chunk ends with a row's values and a single `00`, the row is never emitted: the `00` stays buffered. |
| ChartStream.ChartDecoder.constructor | src/chartStream.ts:28-36 | A new decoder is in the initial state with a fresh buffer of the right variant. |
| ChartStream.ChartDecoder.ProcessText | src/chartStream.ts:68-88 | The progress flag and the new state are those of `NextText`. |
| ChartStream.ChartDecoder.ProcessBitDepth | src/chartStream.ts:90-104 | The progress flag and the new state are those of `NextBitDepth`. |
| ChartStream.ChartDecoder.ProcessRasterSegment | src/chartStream.ts:106-120 | The progress flag and the new state are those of `NextRasterSegment`. |
| ChartStream.ChartDecoder.ProcessRasterRow | src/index.ts:118-142 | The progress flag and the new state are those of `NextRasterRow`. This includes the decoded row in `parseChart` and the failure when `parseRasterRow` throws. |
| ChartStream.ChartDecoder.Step | src/chartStream.ts:54-57 | One call of the installed processor equals `Next`. |
| ChartStream.ChartDecoder.ProcessChunks | src/chartStream.ts:52-58 | The do-while loop leaves the state `Drain` gives. Its partners are `DrainQuiescent`, `DrainInv` and `DrainExtends`. |
| ChartStream.ChartDecoder.Flush | src/chartStream.ts:38-42 | The loop run once more leaves the state `Flushed` gives. After the end token that reinstates the raster-segment processor, which `end()` left installed. |
| ChartStream.ChartDecoder.Transform | src/chartStream.ts:44-50 | Pushing a chunk and running the loop leaves the state `Feed` gives. |
| ParseChart.TextLinesAppend | src/index.ts:72-77 | The text lines of appended records are the text lines of each part, in order. |
| ParseChart.DecodedRowsAppend | src/index.ts:118-128 | The rows of appended records are the rows of each part, in order. |
| ParseChart.RecordsOfChart | src/index.ts:61-142 | For a well-formed chart, the text lines are the header lines, decoded. The rows are the chart's rows, decoded with its bit depth. |
| ParseChart.WellFormedParse | src/index.ts:97-151 | Fed a whole well-formed chart, `parseChart` completes at the raster end token. The text segment holds the entries of the header lines and the raster segment holds every row, decoded in order. |
| ParseChart.ChartParser.constructor | src/index.ts:35-43 | The parser starts in the initial state with its promise pending. |
| ParseChart.ChartParser.CompleteParse | src/index.ts:144-151 | The result is the entries of the text lines read so far and the rows decoded so far; an orphan continuation line is the error `parseTextSegmentEntries` throws. |
| ParseChart.ChartParser.OnData | src/index.ts:153-159 | The chunk is fed to the machine. The promise settles on the first transition to the end, with `completeParse`'s result. |
| ParseChart.ChartParser.OnEnd | src/index.ts:161-165 | While the end token has not been read, the end of input settles a pending promise with whatever has been read. Otherwise nothing happens. |
| Raster.MaskTables | src/raster.ts:35-55 | For every depth 0..7, the colour mask is `((1<<d)-1) << (7-d)` and the length mask is `(1<<(7-d))-1`. They are disjoint and together make `0x7F`. |
| Raster.RowNumberAppend | src/raster.ts:57-65 | The row number is base-128 big-endian: appending a byte multiplies by 128 and adds it. |
| Raster.RowNumberBound | src/raster.ts:57-65 | A row number of k groups is below `128^k`. |
| Raster.ReadRowNumber | src/raster.ts:57-65 | The accumulator loop computes the base-128 value `RowNumberOf`. |
| Raster.ReadRasterRun | src/raster.ts:67-87 | The loop computes `RunOf`: the colour index from the first byte and the masked base-128 length plus one. |
| Raster.RunFields | src/raster.ts:67-86 | The colour index is the first byte's low 7 bits shifted right by `7-d` and lies in `[0, 2^d)`. The length is 1 plus the base-128 value with the first byte's colour bits cleared, so it is at least 1. |
| Raster.RunExample | src/raster.ts:67-86 | At depth 4, `[0x78]` decodes to colour 15, length 1. With two more bytes the length gains them as base-128 digits. |
| Raster.EncodeRun | src/raster.ts:67-86 | An encoder written for this model, not in the source: its output is non-empty and every byte is below 128. |
| Raster.EncodeRunRoundTrip | src/raster.ts:67-86 | Decoding an encoded run gives back its colour index and length, for every colour that fits the depth and every length of at least 1. |
| Raster.ParseRasterRow | src/raster.ts:89-100 | A row of at least one value gives the row number of its first value and one run per remaining value, in order. An empty row, where the source throws, gives `None`. |
| Raster.Store | src/raster.ts:122-125 | A byte store changes at most the one index it names. An out-of-range index leaves the array unchanged. |
| Raster.StorePixel | src/raster.ts:120-125 | Writes the four bytes of one pixel and nothing else. |
| Raster.PixelBytes | src/raster.ts:117-125 | A missing palette index gives `(0,0,0,0)`; an entry without alpha gives alpha `0xFF`. |
| Raster.WriteRun | src/raster.ts:119-126 | One run paints its colour from the current x, stopping at the width; x advances by the pixels written. |
| Raster.WriteRow | src/raster.ts:111-127 | A row is painted from x = 0, its runs laid left to right and cut at the buffer width, at y = row number − 1. |
| Raster.WriteRasterSegment | src/raster.ts:109-129 | The buffer ends as `Composite` of its old contents: every row painted in order. |
| Raster.CompositeStep | src/raster.ts:110-128 | Painting one more row paints it over the result for the rows before it. |
| Text.SplitJoin | src/text.ts:21 | Joining the pieces with the separator gives back the text, and no piece contains the separator. |
| Text.EntryTypeOf | src/text.ts:48-53 | The type is the non-empty text before the first `/`. There is none when the line is empty, starts with `/`, or has no `/`. |
| Text.ParseTextSegmentEntries | src/text.ts:28-61 | The loop computes `EntriesOf`: the entries of the lines, or the error of a continuation line with no current entry. |
| Text.ParseTextSegment | src/text.ts:20-24 | Tokenizes the pieces of the text split on CRLF. |
| Text.ErrorPersists | src/text.ts:44-46 | Once a prefix fails, the whole input fails with the same error. |
| Text.EntriesFailure | src/text.ts:44-46 | Tokenizing fails exactly when a continuation line comes before every line that starts an entry. |
| Text.EntriesEmptyIffNoStart | src/text.ts:39-60 | There are no entries exactly when no line starts one. |
| Text.EntriesShape | src/text.ts:33-60 | There is one entry per starting line, and every entry has at least one line. Read in order, the entries' lines are the text of every non-blank line, in input order. |
| Text.ContinuationStep | src/text.ts:44-46 | A continuation line adds no entry. Its text minus the four spaces follows every line already held, so it joins the last entry. |
| Text.EntryTypes | src/text.ts:42-55 | Every entry type is `!`, `<unknown>`, or a non-empty name without `/`. |
| Text.TwoLineHeader | src/text.ts:20-61 | Two typed lines, each ended by CRLF, give two entries with their types and texts. The empty piece after the last CRLF adds nothing. |
| Metadata.DigitsEndRun | src/metadata.ts:51 | The scan for `\d+` stops at the end of a maximal digit run: only digits inside, no digit right after. |
| Metadata.DecimalDigits | src/metadata.ts:60-61 | A decimal numeral written for this model: all digits, with the value `parseInt` reads. |
| Metadata.SizeAtSound | src/metadata.ts:51-54 | A size match at a position is `RA=`, digits, `,`, digits, read as the two numbers. |
| Metadata.SizeAtComplete | src/metadata.ts:51-54 | Every such text at a position is matched there, with the two numbers as values. |
| Metadata.SizeFrom | src/metadata.ts:54 | The match is the leftmost one. |
| Metadata.SizeInLines | src/metadata.ts:53-65 | The size comes from the first line that has a match, or is absent when no line does. |
| Metadata.ParseSize | src/metadata.ts:50-68 | The palette is kept. Without a match the metadata is unchanged; otherwise the size is set to width = first number and height = second. |
| Metadata.PaletteFieldsSound | src/metadata.ts:71-73 | A palette match is exactly four comma-separated digit runs spanning the whole line. |
| Metadata.PaletteFieldsComplete | src/metadata.ts:71-73 | Every line made of four comma-separated digit runs matches with those fields. |
| Metadata.ParsePalette | src/metadata.ts:70-91 | The size is kept. When the first line matches, that index is set to `(r,g,b)` without alpha and other indices are kept. Otherwise, including when there are no lines, the metadata is unchanged. Continuation lines are ignored. |
| Metadata.ParseMetadata | src/metadata.ts:103-115 | The loop computes the left fold `MetadataOf` of the entries from `{}`. |
| Metadata.OtherEntriesIgnored | src/metadata.ts:93-112 | Entries of any type other than `BSB` or `RGB` leave the metadata unchanged. |
| Metadata.PaletteIsLastWriter | src/metadata.ts:83-112 | Each palette index holds the colour of the last `RGB` entry that sets it, and only indices some entry sets are present. |
| Metadata.SizeIsLastWriter | src/metadata.ts:57-112 | The size is that of the last `BSB` entry with a match, or absent. |
| Metadata.PaletteRoundTrip | src/metadata.ts:70-88 | A palette line written in decimal reads back as the same index and colour. |
| Metadata.SizeRoundTrip | src/metadata.ts:50-64 | `RA=w,h` written in decimal, followed by a non-digit, reads back as width w and height h. |
| Kap.KapStream.constructor | src/stream.ts:1-5 | A new cursor is at position 0 over the given contents. |
| Kap.KapStream.Next | src/stream.ts:11-17 | When there is a next byte, returns it and advances by exactly one. Otherwise returns `None` and does not move. |
| Kap.KapStream.Peek | src/stream.ts:19-21 | Returns the byte at position + offset when that is in range, and `None` otherwise; the position does not move. |
| Kap.KapStream.IndexOf | src/stream.ts:23-39 | The nested loops compute `FirstMatch` from the current position; the position does not move. |
| Kap.FirstMatchLeast | src/stream.ts:23-39 | A result is the least q ≥ position where the values match, among q < length − |values|. `None` means there is no match in that range. |
| Kap.KapStream.Seek | src/stream.ts:57-61 | The position becomes `min(position + p, length)` and is returned. A non-negative p keeps the position within the contents. |
| Kap.KapStream.ReadUntil | src/stream.ts:41-55 | Equals `ReadUntilAsWritten`. Without a match nothing moves, and without `consumeValues` nothing moves either. |
| Kap.ReadUntilFromStart | src/stream.ts:48-51 | From position 0, returns the bytes before the match and, with `consumeValues`, moves to the match index + |values|. |
| Kap.JsSlice | src/stream.ts:48 | `Uint8Array.slice(start, end)`: with `0 <= start <= end <= length` it is `s[start..end]`. An end past the array takes the rest. An end at or before a non-negative start, or a start at or past the end of the array, gives nothing. A negative bound at or above −length counts from the end, for the start and the end alike, and the result is empty unless the end then lies past the start. A start below −length acts as 0, and an end below −length gives nothing. The result is never longer than the array. |
| Kap.FirstMatchMissesFinalMatch | src/stream.ts:24 | For contents `[1,2]` and values `[2]`, the values occur at 1 but `indexOf` finds nothing; the corrected bound finds 1. |
| Kap.FirstMatchCorrectedIsIndexOf | src/stream.ts:23-39 | With the bound `q <= length − |values|`, the search agrees with `Buffer.indexOf` from the position for every input. |
| Kap.ReadUntilSlips | src/stream.ts:48-51 | From position 2 in `[1..6]`, reading until `[5]` returns nothing and moves to 6. The corrected read returns `[3,4]` and moves to 5. |
| Kap.ReadUntilCorrectedSplits | src/stream.ts:41-55 | The corrected read returns the bytes from the position to the match and moves past the values; the read bytes, the values and the rest make up the contents. |

## Left out

- `src/memoryStream.ts` and `ArrayStream` (`src/parseStream.ts:3-24`) are not part of this model: they are Node `Readable` I/O plumbing.
- Node `Transform` and Promise wiring is modelled as data. `this.push` appends a record, and `end()` and `removeAllListeners` become the `Ended` phase. `resolve` becomes `ChartParser.outcome`.
- ChartStream.TerminalIsFinal: the transform delivers no chunk after `end()`, and the model does not capture Node's write-after-end handling. `_flush` is modelled separately (`Flushed`). It keeps reading raster after the end token, because `end()` leaves `processRasterSegment` installed. Calling `end()` a second time from there is modelled as having no effect. The `_flush` of `ParseStream` (`src/parseStream.ts:118-120`) never calls its callback. The model does not capture that the readable side then never ends.
- `ChartStream` after `end()`: the model delivers no more data (`Feed` leaves a terminal state unchanged). It does not model Node's write-after-end errors.
- The `error` listener (`src/index.ts:167-171`) and `reject` are left out: stream errors come from I/O.
- An exception thrown inside a listener is modelled as its effect on state. `parseRasterRow([])` throws, which gives the `Failed` phase. `completeParse` throwing on an orphan continuation line gives an `Err` outcome. In both cases the promise stays pending.
- ParseChart.Ascii: `toString('ascii')` is modelled as clearing each byte's high bit. Node's decoder is library code.
- Raster.ReadRowNumber, Raster.ReadRasterRun: `Math.pow` and the additions are exact integers. Doubles lose precision above 2^53, and the model does not capture that.
- Regular expressions and `parseInt` are modelled as explicit digit scanners and decimal evaluation. Only the two patterns the source uses are modelled.
- Metadata.ParseMetadata: `typeParsers[entry.entryType]` also finds inherited `Object.prototype` members, such as an entry type `constructor`. The model applies only `BSB` and `RGB`.
- `Buffer.from(buffer.buffer, offset, length)` views and `Buffer.concat` are modelled as sequence slices and concatenation. Aliasing between views is not captured.
- ByteBuffer.StreamBuffer.Read: `read` builds the new contents with the two-argument `Buffer.from(oldBuffer.buffer, oldBuffer.byteOffset + length)` (`src/streamBuffer.ts:64`, `src/parseStream.ts:48`). That view runs to the end of the underlying `ArrayBuffer`, not to the end of the old view. `Buffer.concat` takes results under 4 KiB from Node's shared 8 KiB pool. After the first read from such a buffer, the contents go on past the old bytes into unrelated pool memory. The model keeps exactly the old bytes after the ones read (`old == r + buffer`). It agrees with the source when every concatenated buffer owns its `ArrayBuffer`, which holds for buffers of at least 4 KiB, or when it has not been read from since the concatenation. It does not model the pool bytes.
- ChartStream.ChunkEndsAfterBitDepth: the empty buffer after the bit-depth byte relies on `ByteBuffer.StreamBuffer.Read`'s exact slices. With a small, pooled chunk the source's buffer holds pool bytes there instead.
- ChartStream.ChunkingMatters: its two-chunk case relies on the buffer being empty after the bit-depth byte. That is not so in the source for a small, pooled first chunk (see `ByteBuffer.StreamBuffer.Read`).
- ChartStream.LastRowPendingAtEnd: its single chunk is small, so in the source it is a pooled buffer. After the first read the final `00` is followed by pool bytes, matches with count 1, and the row is emitted. `LoneEndChunkStalls` states the case that holds in the source either way: the final `00` arrives as a chunk of its own.
- ChartStream.WellFormedChart: the bytes left after the end token are exact only for a chart of at least 4 KiB. A smaller chart is a pooled buffer, where pool bytes follow them.
- ByteBuffer.StreamBuffer.TryReadUntil requires a delimiter of at least two bytes. The source adds a fixed 2, so a shorter delimiter reads past the match into memory the model does not have. Every caller passes CRLF.
- Kap.KapStream.HasNext and Kap.KapStream.Position are plain getters with no contract of their own. `Next` and `Seek` state what they mean.
- The bit depth that `ParseStream` stores (`src/parseStream.ts:110, 168`) is modelled as the machine's `bitDepth`. The source never reads it back.
- Raster.WriteRasterSegment: typed-array writes outside the buffer are silently dropped, and the model drops them too instead of requiring in-range rows. Values are stored modulo 256. `Object.values` order is modelled as the order of the row sequence.
- Raster.ReadRasterRun: a bit depth above 7, or none, indexes past the mask tables. JavaScript then masks with `undefined`, which is 0. The model computes exactly that, so it has no depth precondition.
- Text: entries are values, and a continuation line appends to the last entry. The source mutates the shared `lines` array of `currentEntry`, which is always the last entry pushed, so the result is the same.

## Findings

| source | as written | input that shows it | evidently intended | confidence | as-written member | corrected member |
|---|---|---|---|---|---|---|
| src/streamBuffer.ts:21 (also src/parseStream.ts:66) | The loop runs while `index <= length`. It compares the out-of-range `buffer[length]` with `values[length]`, and `undefined === undefined` holds. A buffer that is exactly the token returns `|values|+1` and is not consumed. | A chunk of at least 4 KiB that ends right after a row's values, then a last chunk that is the lone byte `00`. That `00` is never consumed, so the last row is never emitted. | Stop at the shorter length, so that the count is the common prefix and a buffer equal to the token is consumed. | not executed | ByteBuffer.MatchCountExactToken, ChartStream.LoneEndChunkStalls | ByteBuffer.CommonPrefixFull |
| src/stream.ts:24 | `indexOf` searches only `q < length − |values|`. | Contents `[1, 2]` and values `[2]`: the values occur at 1, but `indexOf` returns `undefined`. | Search `q <= length − |values|`. | not executed | Kap.FirstMatchMissesFinalMatch | Kap.FirstMatchCorrectedIsIndexOf |
| src/stream.ts:48-51 | `slice(this._index, index - this._index)` passes a length where `slice` expects an end. `seek(index + values.length)` is relative to the current position. | Position 2 in `[1, 2, 3, 4, 5, 6]`, reading until `[5]` with `consumeValues`: it returns `[]` and moves to 6. | Return `[3, 4]` and move to 5. | not executed | Kap.ReadUntilSlips | Kap.ReadUntilCorrectedSplits |

The machine and `KapStream` keep the behaviour as written, because they
model the source. The corrected definitions stand beside them with their
properties proved.
