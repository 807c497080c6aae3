# LineBlock: a verified model

iTerm2 keeps its scrollback history in a chain of `LineBlock` objects. Each
block stores **raw lines** (lines as the program wrote them, up to a hard
newline) one after another in a single buffer of screen characters. It
answers questions about those lines once they are **wrapped** to a display
width:
- how many wrapped lines the block has;
- what the n-th wrapped line is;
- how a cell offset maps to an (x, y) coordinate and back.

Lines are appended at the end and dropped from the front as history scrolls
away. The last raw line may be **partial**: not yet ended by a newline, so
the next append continues it.

Double-width characters (DWC) occupy two cells: a left half and a right half.
Once the block may hold one (`mayHaveDoubleWidthCharacter`), wrapping at a
width of at least 2 does not split such a character across the right margin:
a wrapped line whose last column would hold a left half ends one column early,
and the character starts the next wrapped line. At width 1 there is no room to
move back, so the rule does not apply. The guarantee that no wrapped line
starts on a right half holds for well-formed lines, where every right half
directly follows a left half.

The project has three modules:

- `Wrap` (`wrap.dfy`) covers wrapping one raw line at a width.
  - `Next` is the wrap step. `FullLines` counts wrapped lines minus one.
  - `SegmentStart` says where wrapped line n begins. `Segments` gives the wrapped lines themselves.
  - Lemmas cover the header's examples and the re-wrap round trip.
- `Layout` (`layout.dfy`) covers the content of a block as a value: a sequence of `RawLine`s.
  - Its wrapped rows (`Rows`) and its wrapped-line count (`TotalLines`).
  - The lookup with its decrement-and-continue protocol.
  - Position conversion.
  - The value-level meaning of append, drop, pop and remove.
- `Blocks` (`line_block.dfy`) covers the block itself, as the class `LineBlock<M>`.
  - The class holds an `array<Cell>` buffer, the offset of its first live cell (`bufferStart`) and one table entry per raw line: end offset, metadata and continuation cell.
  - It also holds the partial flag, the DWC flag and the cached wrapped-line count.
  - A ghost field `Contents` holds the raw lines, and `Valid()` ties the buffer and the tables to it.
  - Every operation that reads or changes the block's storage is a method whose `ensures` relates the result, or the new `Contents`, to a `Layout` function of the old `Contents`. The properties the header promises are then proved about those functions.
  - convertPosition, getPositionOfLine and offsetOfStartOfLineIncludingOffset are modelled only as `Layout` functions of the content (see "## Left out").
  - Also in this module: the module-level methods `NumberOfFullLines` and `OffsetOfWrappedLine`, which scan a buffer.

Metadata (`iTermImmutableMetadata`) is a type parameter `M`: the block only stores and returns it. A screen character is a `Cell`, with a code and a flag marking the right half of a double-width character.

## Model

| member | source | states |
|---|---|---|
| Blocks.NumberOfFullLines | sources/LineBlock.h:192-207 | The count the buffer scan returns is the number of wrapped lines of the stored cells minus one: the closed form without DWC, the wrap-point scan with DWC |
| Blocks.OffsetOfWrappedLine | sources/LineBlock.h:208-223 | The offset the buffer scan returns is where wrapped line n begins, for every n up to the full-line count |
| Blocks.SameWithoutDwc | sources/LineBlock.h:216-223 | At width 1 the double-width rule changes neither the count nor any wrap point |
| Blocks.RowAt | sources/LineBlock.h:77-86 | The wrapped line read from the buffer is the n-th row of the raw line: its cells, how it ends (soft, early before a DWC, or as the raw line ends), whether it starts the raw line, metadata and continuation |
| Wrap.FullLinesPlain | sources/LineBlock.h:192-200 | Without DWC the number of full lines depends on the length only: ceil(length / width) - 1, and 0 for an empty line |
| Wrap.FullLinesBoundaries | sources/LineBlock.h:195-200 | The header's diagrams: 11 cells at width 5 give 2 full lines; 1 cell, or exactly width cells, give 0; width + 1 cells give 1 |
| Wrap.SegmentStartPlain | sources/LineBlock.h:208-215 | Without DWC wrapped line n begins at n * width (a at 0, g at 6 in the header's example) |
| Wrap.DwcExample | sources/LineBlock.h:216-223 | The header's `abcde`/`XXzzzz` example at width 6: with DWC handling, wrapped line 1 begins at the double-width XX (offset 5) and the first row is short; without it, wrapped line 1 begins at 6 |
| Wrap.NoSegmentStartsInsideDwc | sources/LineBlock.h:24-28 | With DWC handling and width at least 2, no wrapped line of a well-formed raw line starts on the right half of a double-width character |
| Wrap.SegmentLengths | sources/LineBlock.h:216-223 | Every wrapped line except the last has exactly width cells, or width - 1 exactly when DWC handling is on and the cell at the margin is a right half |
| Wrap.StartFromBounds | sources/LineBlock.h:208-223 | Wrap points lie inside the line, and all after the first lie strictly inside it |
| Wrap.StartFromMonotone | sources/LineBlock.h:208-223 | Wrap points strictly increase with the wrapped-line number |
| Wrap.FullLinesAfterStart | sources/LineBlock.h:201-203 | Counting full lines from the k-th wrap point gives k fewer |
| Wrap.SegmentsConcat | sources/LineBlock.h:192-223 | Re-wrap round trip: at any width, with or without DWC handling, a raw line has full-lines + 1 wrapped lines, and they concatenate back to the raw line |
| Wrap.SegmentAt | sources/LineBlock.h:208-223 | Wrapped line n is exactly the cells between wrap point n and wrap point n + 1 (or the end) |
| Wrap.ShiftFrom | sources/LineBlock.h:201-203 | Wrapping from an offset does not depend on the cells before it |
| Wrap.DropSegments | sources/LineBlock.h:117-119 | Cutting a raw line at its k-th wrap point leaves a line whose wrapped lines are exactly the original's from k on |
| Wrap.TwoSteps | sources/LineBlock.h:216-223 | Two wrap steps from any point always get past the first margin, even with the one-column-early rule |
| Wrap.CutLastSegment | sources/LineBlock.h:105-110 | Cutting a raw line at its last wrap point leaves one wrapped line fewer, with the earlier wrapped lines unchanged; the cut-off cells are the last wrapped line |
| Layout.TotalLines | sources/LineBlock.h:96-97 | getNumLinesWithWrapWidth counts at least one wrapped line per raw line |
| Layout.TotalLinesAppend | sources/LineBlock.h:96-97 | The wrapped-line count of two runs of raw lines is the sum of their counts |
| Layout.LineRowsFacts | sources/LineBlock.h:77-86 | A raw line has as many rows as it has wrapped lines; a row is empty exactly when its raw line is |
| Layout.RowsLength | sources/LineBlock.h:96-97 | The block has exactly as many rows as getNumLinesWithWrapWidth counts |
| Layout.RowInLine | sources/LineBlock.h:68-75 | Row T + m of the block, with T the wrapped lines of the raw lines before line i, is row m of raw line i |
| Layout.LookupFrom | sources/LineBlock.h:68-86 | A lookup that finds a row names a raw line inside the block |
| Layout.LookupHit | sources/LineBlock.h:77-86 | When raw line i holds the wanted row, the lookup returns the block's row at that index, with the run of empty rows just before it as yOffset |
| Layout.LookupFromSpec | sources/LineBlock.h:68-86 | From any scan position, the lookup returns the right row with its yOffset, or the line number less the wrapped lines that remain |
| Layout.LookupProtocol | sources/LineBlock.h:68-86 | getWrappedLineWithWrapWidth's protocol, both ways: the line is missing exactly when lineNum is at least the block's count, and then lineNum is decremented by that count; otherwise the result is the block's lineNum-th row, and yOffset counts the consecutive empty lines just before it |
| Layout.LastRowEol | sources/LineBlock.h:102-103 | The block's last wrapped line ends softly exactly when the block is partial; no other row depends on the flag |
| Layout.RowsFlatten | sources/LineBlock.h:20-21 | Reading all wrapped lines in order gives back exactly the cells stored in the block |
| Layout.ConvertPosition | sources/LineBlock.h:170-179 | A successful conversion names a wrapped line of the block, or the line just after the last one, and only for a position inside the block's cells (0 up to their number) |
| Layout.PositionOfLine | sources/LineBlock.h:181-187 | getPositionOfLine fails exactly when lineNum is at least the block's count, and then leaves lineNum less that count; a position it finds lies within the block's cells |
| Layout.RowStartMonotone | sources/LineBlock.h:170-179 | Row starting positions never decrease |
| Layout.ConvertFromRow | sources/LineBlock.h:170-179 | Position conversion maps the start of row n plus x to (x, n) |
| Layout.ConvertFromSound | sources/LineBlock.h:170-179 | Every coordinate conversion produces lies inside its row (x at most the row's length) and maps back to the position; it can fall past the last row only with wrapOnEOL, at the very end |
| Layout.ConvertAfterPosition | sources/LineBlock.h:170-187 | Round trip: a cell getPositionOfLine finds (not past the end of its line) converts back to the same (x, lineNum) |
| Layout.PositionAfterConvert | sources/LineBlock.h:170-187 | Round trip: a position that converts to a wrapped line of the block is the one getPositionOfLine gives for that (x, y); the only other result is the end of the block with wrapOnEOL |
| Layout.RawLineContaining | sources/LineBlock.h:189-190 | The raw line found is the one whose cells span the offset |
| Layout.OffsetOfStartOfLine | sources/LineBlock.h:189-190 | The result is the position where some raw line begins, at or before the offset, and that raw line still holds the offset's cell |
| Layout.LeadingEmptyLines | sources/LineBlock.h:229-231 | numberOfLeadingEmptyLines: that many first raw lines are empty and the next one is not |
| Layout.TrailingEmptyLines | sources/LineBlock.h:229-231 | numberOfTrailingEmptyLines: that many last raw lines are empty and the one before them is not |
| Layout.LeadingUnique | sources/LineBlock.h:229-231 | The leading count is the only count with those two properties |
| Layout.TrailingUnique | sources/LineBlock.h:229-231 | The trailing count is the only count with those two properties |
| Layout.AllLinesEmpty | sources/LineBlock.h:124-125 | allLinesAreEmpty holds exactly when every raw line has length 0, so it holds for a block with no lines |
| Layout.AllLinesEmptyFlatten | sources/LineBlock.h:124-125 | All raw lines are empty exactly when the block holds no cell |
| Layout.AppendLine | sources/LineBlock.h:59-66 | An append keeps every earlier raw line. It extends the partial last line, or adds a new one, by exactly the given cells; the last line takes the new metadata and continuation |
| Layout.AppendLineFlatten | sources/LineBlock.h:59-66 | An append adds exactly the given cells to the end of the block's content |
| Layout.AppendNewLineRows | sources/LineBlock.h:59-66 | Appending a new raw line adds its full lines + 1 wrapped lines and keeps every earlier row |
| Layout.DropLines | sources/LineBlock.h:117-119 | dropLines never drops more than n wrapped lines and never adds raw lines (the exact count is in DropLinesCount) |
| Layout.DropLinesCount | sources/LineBlock.h:117-119 | dropLines drops min(n, total) wrapped lines. The count left is the total less those dropped. What remains is the old content without its first `chars` cells. The block is left empty exactly when n covers it |
| Layout.LastRow | sources/LineBlock.h:105-110 | The block's last row is the last row of its last raw line |
| Layout.PopLast | sources/LineBlock.h:105-110 | popLastLineInto fails exactly when the block has no lines. Otherwise it returns the last raw line's metadata and continuation. The block then has as many raw lines as before when it ends partially, and one fewer when it ends with a hard newline |
| Layout.PopLastSpec | sources/LineBlock.h:105-110 | popLastLineInto fails exactly when there are no lines. Otherwise it returns the block's last wrapped line with its metadata and continuation, and what remains followed by it is the old content |
| Layout.PopLastContent | sources/LineBlock.h:105-110 | The popped cells are the last raw line from its last wrap point on |
| Layout.PopLastCount | sources/LineBlock.h:105-110 | On well-formed content (or without DWC handling) a pop removes exactly one wrapped line |
| Layout.PopLastKeepsWellFormed | sources/LineBlock.h:105-110 | A pop leaves well-formed content well formed |
| Layout.RemoveLastWrapped | sources/LineBlock.h:112-113 | Removing wrapped lines never adds raw lines, and changes nothing in a block without lines |
| Layout.NonEmptyHasLines | sources/LineBlock.h:121-122 | A block has no raw lines exactly when it has no wrapped lines |
| Layout.RemoveLastWrappedCount | sources/LineBlock.h:112-113 | removeLastWrappedLines removes min(k, total) wrapped lines on well-formed content |
| Layout.LineRowAt | sources/LineBlock.h:77-86 | Wrapped line n of a raw line spelled out: its cells between consecutive wrap points, its end kind, whether it starts the raw line, its metadata and continuation |
| Layout.FrontSplit | sources/LineBlock.h:117-119 | A block's count and content split into its first raw line and the rest |
| Blocks.LinesAppend | sources/LineBlock.h:59-66 | Writing the cells after the last used cell and extending or adding a table entry stores exactly the appended content |
| Blocks.LinesDrop | sources/LineBlock.h:117-119 | Dropping table entries from the front and starting at the next line's begin stores the remaining lines unchanged |
| Blocks.LinesAdvance | sources/LineBlock.h:117-119 | Moving the start of the buffer forward by `off` cells drops exactly those cells from the first raw line |
| Blocks.LinesCut | sources/LineBlock.h:105-110 | Moving the last line end back cuts the last raw line to its first cells and keeps the others |
| Blocks.LinesPop | sources/LineBlock.h:114 | Removing the last table entry removes the last raw line and keeps the others |
| Blocks.LinesFrame | sources/LineBlock.h:59-66 | Cells past the end of the last line do not affect what the block holds |
| Blocks.LinesSize | sources/LineBlock.h:155-156 | The lines a table describes hold exactly the cells from the first live one to the end of the last line |
| Blocks.AppendCount | sources/LineBlock.h:59-66 | After an append, the wrapped-line count is the old count with the old partial line's rows replaced by the new last line's rows |
| Blocks.LineBlock.constructor | sources/LineBlock.h:54-55 | A new block is valid and empty, with a buffer of the given size, no used space, no dropped entries, no partial line and no DWC flag |
| Blocks.LineBlock.IsEmpty | sources/LineBlock.h:121-122 | isEmpty holds exactly when there are no raw lines; an empty block has all lines empty |
| Blocks.LineBlock.HasPartial | sources/LineBlock.h:102-103 | hasPartial reports the partial flag; by LastRowEol that is exactly whether the block's last wrapped line ends softly, at every width |
| Blocks.LineBlock.UsedSpace | sources/LineBlock.h:155-156 | rawSpaceUsed (RawSpaceUsed) counts the cells dropped from the head of the buffer together with every cell the block stores |
| Blocks.LineBlock.HasCachedNumLines | sources/LineBlock.h:99-100 | A cached count for the width, when there is one, is the block's wrapped-line count |
| Blocks.LineBlock.NumRawLines | sources/LineBlock.h:130-131 | numRawLines is the number of raw lines held |
| Blocks.LineBlock.NumEntries | sources/LineBlock.h:158-159 | numEntries counts the raw lines held together with those dropped from the head. The dropped count starts at 0, grows by the raw lines dropLines removes, is kept by append, pop and resize, and starts over when a pop empties the block |
| Blocks.LineBlock.LineLength | sources/LineBlock.h:136-137 | getRawLineLength is the length of the raw line |
| Blocks.LineBlock.LineSpans | sources/LineBlock.h:201-203 | The full lines of raw line i, read from the buffer |
| Blocks.LineBlock.WrappedLineOf | sources/LineBlock.h:77-86 | The row read from the buffer is the n-th row of raw line i, with its starting offset |
| Blocks.LineBlock.CountLines | sources/LineBlock.h:96-97 | The line-by-line sum over the buffer is the block's wrapped-line count |
| Blocks.LineBlock.GetNumLines | sources/LineBlock.h:96-100 | getNumLinesWithWrapWidth returns the wrapped-line count at the width and leaves it cached for that width |
| Blocks.LineBlock.GetWrappedLine | sources/LineBlock.h:68-86 | The buffer scan returns what the lookup specifies, so LookupProtocol holds of it |
| Blocks.LineBlock.FoundAt | sources/LineBlock.h:77-86 | The answer built from the buffer at raw line i is the lookup's answer there |
| Blocks.LineBlock.AllLinesAreEmpty | sources/LineBlock.h:124-125 | The scan answers allLinesAreEmpty on the block's content |
| Blocks.LineBlock.ContainsAnyNonEmptyLine | sources/LineBlock.h:232 | True exactly when some raw line holds a cell |
| Blocks.LineBlock.NumberOfLeadingEmptyLines | sources/LineBlock.h:229-231 | The scan returns the leading-empty count of the content |
| Blocks.LineBlock.NumberOfTrailingEmptyLines | sources/LineBlock.h:229-231 | The scan returns the trailing-empty count of the content |
| Blocks.LineBlock.Store | sources/LineBlock.h:59-66 | Copying the cells after the used space and updating the tables stores the appended content and uses exactly that many more cells |
| Blocks.LineBlock.AppendCells | sources/LineBlock.h:59-66 | The stored content becomes the appended content |
| Blocks.LineBlock.AppendCounted | sources/LineBlock.h:59-66 | An append with a cached count keeps that count right |
| Blocks.LineBlock.PartialRows | sources/LineBlock.h:59-66 | The wrapped lines of the partial last raw line, which an append replaces in the count |
| Blocks.LineBlock.LastSpans | sources/LineBlock.h:59-66 | The full lines of the last raw line, read from the buffer |
| Blocks.LineBlock.SetCache | sources/LineBlock.h:99-100 | A count stored in the cache is the block's count at that width |
| Blocks.LineBlock.Append | sources/LineBlock.h:59-66 | appendLine succeeds exactly when the cells fit in the free space, so a line longer than the buffer never fits. On success the content becomes AppendLine of the old content, the partial flag is the one given, and the used space grows by the length. On failure nothing changes. The DWC flag, the start of the live cells and the dropped-entry count never change |
| Blocks.LineBlock.DropWholeLines | sources/LineBlock.h:117-119 | Dropping i whole raw lines leaves exactly the rest, counts them as dropped entries and keeps the used space |
| Blocks.LineBlock.AdvanceStart | sources/LineBlock.h:117-119 | Dropping the first `off` cells of the first raw line leaves exactly the rest of it |
| Blocks.LineBlock.ScanDrop | sources/LineBlock.h:117-119 | The scan over whole raw lines agrees with dropLines: dropping the rest from where it stops gives the same result |
| Blocks.LineBlock.DropFront | sources/LineBlock.h:117-119 | Dropping fewer wrapped lines than the first raw line has cuts it at the right wrap point |
| Blocks.LineBlock.DropLines | sources/LineBlock.h:117-119 | dropLines leaves the content, count and dropped cells DropLines specifies, so DropLinesCount holds of it. It counts the dropped raw lines as dropped entries and keeps the partial and DWC flags |
| Blocks.LineBlock.CutLast | sources/LineBlock.h:105-110 | Cutting the last raw line to `off` cells keeps the other lines and frees the rest of its cells |
| Blocks.LineBlock.RemoveLast | sources/LineBlock.h:114 | The last raw line is removed and returned with its metadata and continuation; an emptied block starts over at offset 0 |
| Blocks.LineBlock.LastWrappedStart | sources/LineBlock.h:105-110 | Where the last wrapped line of the last raw line begins |
| Blocks.LineBlock.PopWrapped | sources/LineBlock.h:105-110 | A last raw line longer than the width loses its last wrapped line, as PopLast specifies |
| Blocks.LineBlock.PopWhole | sources/LineBlock.h:105-110 | A last raw line that fits the width is removed whole, as PopLast specifies |
| Blocks.LineBlock.PopLastLine | sources/LineBlock.h:105-110 | popLastLineInto returns false and changes nothing on an empty block. Otherwise it returns the popped cells, metadata and continuation, and leaves the content and partial flag PopLast gives, so PopLastSpec holds of it. The used space shrinks by exactly the popped cells; a block the pop empties starts over at offset 0 with no dropped entries, and otherwise the start and dropped-entry count are kept |
| Blocks.LineBlock.RemoveLastRawLine | sources/LineBlock.h:114 | removeLastRawLine does nothing on an empty block. Otherwise it removes the last raw line and frees its cells, and the block then ends with a hard newline. A block it empties starts over at offset 0 with no dropped entries; otherwise the start and dropped-entry count are kept |
| Blocks.LineBlock.RemoveLastWrappedLines | sources/LineBlock.h:112-113 | removeLastWrappedLines is popLastLineInto k times, so RemoveLastWrappedCount holds of it. It frees exactly the cells removed, and a block it empties starts over at offset 0 with no dropped entries |
| Blocks.LineBlock.ChangeBufferSize | sources/LineBlock.h:127-128 | The buffer gets the new capacity and keeps the content, used space, start of the live cells, dropped-entry count and flags |
| Blocks.LineBlock.ShrinkToFit | sources/LineBlock.h:139-140 | The capacity becomes the used space and the content, start and dropped-entry count are kept, so by Append's contract every later nonempty append fails |
| Blocks.LineBlock.SetPartial | sources/LineBlock.h:237 | The partial flag is set as given |
| Blocks.LineBlock.SetMayHaveDwc | sources/LineBlock.h:24-28 | Once set, the DWC flag stays set: the new value is the old one or the given one |

## Left out

- sources/LineBlock.m is not part of this model. The behaviour is taken from the header's declarations and comments, with the internal layout chosen to match them: a buffer, a start offset and per-line end offsets.
- findSubstring: text search with find options and modes is outside the block's storage and wrapping logic.
- blockWithDictionary and dictionary (serialization), cowCopy, copyWithAbsoluteBlockNumber, progenitor, hasBeenCopied, invalidate and the mirroring methods: copy-on-write sharing, locking and persistence are not modelled. The model is a single owner of its buffer.
- dump, dumpString, appendToDebugString, generation, index, absoluteBlockNumber, sizeFromLine, hasOwner and EnableDoubleWidthCharacterLineCache: debugging aids, counters and a process-wide cache switch.
- screenCharArrayForWrappedLineWithWrapWidth, rawLineAtWrappedLineOffset, rawLineNumberAtWrappedLineOffset, metadataForLineNumber, metadataForRawLineAtWrappedLineOffset and internalMetadataForLine: these read through the same lookup as getWrappedLineWithWrapWidth. The Found result carries the raw line index, row, metadata and continuation they return, but they are not modelled as separate members.
- numberOfCharacters, startOffset and rawLine: these read the buffer directly. Content is exposed through `Contents`, `bufferStart` and `LineCells`.
- lengthOfLastLine is covered only through `LineLength` of the last raw line.
- Metadata is opaque: an append replaces the last raw line's metadata with the given one. Merging metadata when a partial line is continued is not modelled.
- A screen character is a code and a right-half flag only. Colours, attributes and the meaning of the continuation cell are not modelled.
- The source's `int` widths (32-bit counts and offsets) are not modelled; every count is an unbounded natural number.
- Blocks.LineBlock.ChangeBufferSize: requires a capacity of at least the used space. The header says only that it grows the buffer, and a smaller capacity could not hold the content.
- Blocks.LineBlock.PopLastLine, Blocks.LineBlock.RemoveLastRawLine and Blocks.LineBlock.RemoveLastWrappedLines: a block they empty starts over at offset 0 with no dropped entries. This is a choice of the model, since the implementation file is not part of it.
- Blocks.LineBlock.DropLines: a block that dropLines empties keeps its start at the end of the dropped cells, and keeps its used space and dropped-entry count. It then has less free space than a new block of the same size. The model does not reset it, because the header says only that dropped cells still count in rawSpaceUsed.
- convertPosition, getPositionOfLine and offsetOfStartOfLineIncludingOffset: modelled as the `Layout` functions ConvertPosition, PositionOfLine and OffsetOfStartOfLine of the block's content. No `LineBlock` method reads them from the buffer.
- Positions in convertPosition, getPositionOfLine and offsetOfStartOfLineIncludingOffset are counted from the first live cell of the block, not from the start of the raw buffer. The cells dropped from the head still count in rawSpaceUsed (UsedSpace).
- Layout.ConvertPosition: the wrapOnEOL choice applies at every row boundary, soft wraps included. With wrapOnEOL false, the first cell of a continuation row converts to the end of the row above: x equals the row's length, which is the width on a full row. The header speaks only of a position after the last character on a line, and this is the reading that makes the two conversions inverse (ConvertAfterPosition, PositionAfterConvert).
- Layout.PositionOfLine: `pastEnd` (the header's extends flag) is set when x is at or past the end of the wrapped line's cells. The x is then clamped to that end. The header's "at the right margin (after nulls)" is read as "past the last stored cell of the line", since the block stores no padding nulls.
- The cached wrapped-line count is dropped by every operation that changes the content in a way other than an append at the cached width. The model promises only that a cached count, when present, is right.
- `firstEntry` only counts dropped raw lines; the tables hold only the live lines.
- Layout.PopLastCount and Layout.RemoveLastWrappedCount: proved for well-formed content (every right half directly follows a left half) or without DWC handling. Content that breaks that rule is not given a count.
- Layout.OffsetOfStartOfLine: returns the start of the raw line that holds the offset. The header comment says "wrapped line", but the method takes no width, so no wrapped line could be meant.
- getWrappedLineWithWrapWidth's out-parameters (lineLength, includesEndOfLine, yOffset, continuation, isStartOfWrappedLine and metadata) are folded into the `Row` and `Wrapped` results.
