# Chat server and table engine: a verified model

This project models two parts of the repository in Dafny and proves what they promise.

**The chat server's concurrent core** (`src/server.c` on top of `include/queue.h`). Any number of client threads, any
number of delivering threads and any queue capacity are a step machine (`ServerModel`): every thread has a program
counter; a lock operation, the test of a wait loop, the window between unlock and signal, being woken but not yet holding
the lock, the two stores of a join, and each slot visit of a fan-out are steps of their own; clients may connect, join,
send and hang up at any time, and spurious wake-ups may happen. The history variables of the state (`inserted`, `jobs`,
`joins`, `registered`, `left`) record what happened and never guide a step. `CyclicQueue` is the ring buffer, once as a
value and once as a class over an array.

- `ServerSafety`: one invariant over all interleavings, by a local invariant for each thread and a relation that says what
  a thread may rely on while others step.
- `ServerWakeups`: two counting invariants say that no wake-up is lost although the signal is sent after the unlock.
- `ServerDrain`: a measure that every internal step decreases; a server that can go no further has delivered everything.
- `ServerDelivery`: mutual exclusion, conservation and order of messages, exactness of each fan-out, the join registry.
- `ServerMessages`: what the clients of a run ask for against what the server makes of it: messages are inserted as they
  were read, in the order of each client, and slots hold the descriptors and groups with which the clients came.
- `ServerWrites`: to which descriptors the server writes, and two races.

**The table engine bundled in `src/fort.c`**, for buffers of single-byte characters.

- `CellText`, `TableModel`, `Layout`, `TableSizes`: measuring cells, spans, the column width solver, the size of the
  output. The property container is a function from a place to properties; glyphs and style tags are arbitrary strings.
- `Units`, `Rendering`, `Separators`: what is to be printed, call by call, as a function of the table and its widths.
  `Grid` and `TableText` prove that this is a rectangular grid with every text line at its place, `GridLines` that such a
  grid leaves nothing open. `Alignment` and `Borders` tell from the output lines themselves, and from the fields of the
  table's style, where texts stand between blanks and which glyph is drawn where. `BufferBound`, `ExactSize` and
  `Reservation` compare the size of the output with the bytes reserved for it. `SpanOrder` says in which order overlapping
  spans are widened.
- `PrintRuns`: what a series of print calls does to a conversion context with too little room, with `ft_nprint`'s own test
  and with the room wrapping around like a `size_t`. `TextPlaces` computes from this, for every table and every size of
  the buffer, whether a conversion succeeds, fails, or leaves the buffer; `BufferOverrun` and `TightBuffer` are tables for
  which it fails and leaves the buffer.
- `Printing`, `RowPrinting`, `SeparatorPrinting`, `TablePrinting`: the printers themselves, over a conversion context with
  a buffer inside a longer stretch of memory, a position and the room left, proved to make just these calls and to change
  just these bytes, whether there is room or not.
- `Vectors`, `Rows`, `TableRows`, `Fields`, `RowParsing`, `FormattedRows`: growable vectors, the ownership of cells when
  rows are replaced, inserted, split and erased, and rows parsed from strings. A cell on the heap has a ghost flag `live`;
  destroying it requires the flag and clears it, so no cell is freed twice. (Printing only reads cells and takes them as
  values.)
- `Utf8Codec`, `Utf8Strings`, `Utf8Search`, `Utf8Case`: the UTF-8 codec, validator, search and case mapping. `Utf8Order`
  says what each bit of an encoding stands for, and that byte order is codepoint order.

What the proofs found, beside what the code promises:

- Style tags and spans together can need more bytes than are reserved (`BufferOverrun.MixedDoesNotFit`): 98 bytes against
  90, for a table with a bold cell below a span. `BufferBound.OutputAlwaysFits` gives a condition on the table under which
  the reservation is enough, `ExactSize.OutputSizeIsPredicted` gives the exact size for every table, and
  `ExactSize.FitsExactly` says that the output fits if and only if this size is at most the reserved one.
- `ft_nprint` (src/fort.c:4069) accepts a text that is as long as the room left, or longer by one, and then writes behind
  the buffer; `Printing.ConvContext.FtNprint` proves that it stays inside exactly for all other lengths.
- `ft_to_string` can therefore write behind the buffer that it reserved. `TightBuffer.TightOverruns` is such a table, with
  four rows of two columns and one-byte texts. `TextPlaces.OverrunsIffTextMeetsEnd` says for which tables and sizes it
  happens, from widths, heights and the lengths of glyphs and tags alone: some line of a text starts inside the buffer and
  is as long as the room left there, or longer by one. For all other tables `TextPlaces.ConversionOutcome` and
  `TablePrinting.Converter.ToString` say that no byte behind the buffer is written and that the result is the buffer if it
  is longer than the output and NULL otherwise.
- A table with rows for which nothing at all is printed leaves the conversion buffer as it is, so `ft_to_string` hands out
  the string of the conversion before; `ExactSize.SilentTable` says exactly for which tables this is so.
- The server can write a message to descriptor 0, for a slot that is counted and not yet stored, and to -1, for a slot that
  was left between test and write: `ServerWrites` has a run for each, and says when a write goes to the slot's own descriptor.
- `pop_queue` goes on after it found the queue empty and makes it look full; `CyclicQueue.PopOnEmpty` says so.
- The repository's own README speaks of 20 groups; the code reserves 10 (`MAX_GROUPS`). The model takes any number.

`dafny verify dfyconfig.toml` checks the whole project.

## Model

| member | source | states |
|---|---|---|
| CyclicQueue.Observers | include/queue.h:37-43 | full and empty are told apart exactly, and the size is the length of the sequence, across the wrap-around |
| CyclicQueue.InsertAppends | include/queue.h:57-58 | inserting into a queue that is not full appends to the sequence |
| CyclicQueue.PopRemoves | include/queue.h:67-69 | popping a queue that is not empty takes its first item |
| CyclicQueue.PopOnEmpty | include/queue.h:63-70 | popping removes an item exactly when the queue is not empty; an empty one looks full afterwards |
| CyclicQueue.HistoryRefinesBoundedSequence | include/queue.h:21-72 | every history of operations that pops no empty queue answers as a sequence bounded by the argument of `init_queue` does |
| CyclicQueue.StaleSlotsAreInvisible | include/queue.h:46-72 | two rings with the same items answer every such history alike, whatever is in the slots outside |
| CyclicQueue.Queue.constructor | include/queue.h:21-28 | an empty queue with one slot more than its capacity |
| CyclicQueue.Queue.Insert | include/queue.h:46-60 | -1 and no change when full, else the item is appended |
| CyclicQueue.Queue.Pop | include/queue.h:63-70 | the read slot is returned and the queue is what the ring's pop makes it, also when it was empty |
| CyclicQueue.Queue.GetSize | include/queue.h:72 | the length of the contents |
| ServerSafety.StepKeepsInv | src/server.c:179-285 | every step of every thread, every input and every wake-up keeps the invariant |
| ServerSafety.RunKeepsInv | src/server.c:179-285 | the invariant holds after every run |
| ServerSafety.ClientStepRely | src/server.c:193-243 | a client's step leaves to every other thread what that thread relies on |
| ServerSafety.ConsumerStepRely | src/server.c:251-268 | a delivering thread's step leaves to every other thread what that thread relies on |
| ServerSafety.ClientStepRegistry | src/server.c:193-213 | group names stay distinct, and counts stay the numbers of joins of each group |
| ServerSafety.EndOfLoop | src/server.c:264 | when the test of the loop fails, every slot that was registered at the pop and not left was written |
| ServerSafety.WriteProgresses | src/server.c:265-267 | a write goes to a slot beyond all earlier ones, to the slot's own descriptor unless it was not yet stored or left meanwhile |
| ServerWrites.WriteIsOwn | src/server.c:264-267 | in every run, a write goes to the slot's own descriptor exactly if the slot is stored and not left at that step; else to -1 if it was left, and to 0 if it is not yet stored |
| ServerWrites.DescriptorZeroIsWritten | src/server.c:199-267 | a legal run from the start in which a message is written to descriptor 0, at the slot of a client that is just joining |
| ServerWrites.DescriptorMinusOneIsWritten | src/server.c:243-267 | a legal run from the start in which a message is written to descriptor -1, at the slot of a client that left after the test |
| ServerWakeups.WakeupsAreNeverLost | src/server.c:230-237 | while a delivering thread waits, queued messages are at most the inserts that still owe a signal plus the woken delivering threads; and the same for free slots and clients; over all interleavings |
| ServerWakeups.WakeupsAtStart | src/server.c:251-261 | the two counting invariants hold at the start |
| ServerDrain.StuckIsDrained | src/server.c:251-261 | a state in which no internal step is possible has an empty queue, no message in hand, and all delivering threads waiting |
| ServerDrain.InternalStepDecreases | src/server.c:229-268 | every internal step decreases a measure of messages, signals owed, program counters and slots left to visit |
| ServerDrain.ServerDrains | src/server.c:229-268 | after any history, a run without input has at most as many steps as the measure, and when it can go no further every message was fanned out |
| ServerDrain.DrainedIsStable | src/server.c:251-255 | a drained server stays drained until there is input |
| ServerDelivery.MutualExclusion | src/server.c:193-236 | no two threads are inside the critical sections of the same mutex |
| ServerDelivery.MessagesAreConserved | src/server.c:235-257 | inserted messages are always the popped ones followed by the queue; a popped one is in exactly one thread's hands or was fanned out |
| ServerDelivery.FanOutIsExact | src/server.c:263-268 | a message goes at most once to a slot, never to its sender, and, once its fan-out is over, exactly once to each other slot that was registered at the pop and has not left |
| ServerDelivery.IncreasingCount | src/server.c:264-268 | writes to increasing slots reach no slot twice |
| ServerDelivery.JoinsAreConsistent | src/server.c:193-213 | two joins get the same group iff their names are equal; ids of a group are dense in the order of joins, and no pair is handed out twice |
| ServerDelivery.SlotsAreStable | src/server.c:199-243 | a slot that was left stays -1; any other registered slot keeps its descriptor |
| ServerMessages.ReadsAreInserted | src/server.c:229-236 | over every run: of each client, the inserted messages are those that were read from it, unchanged and in the same order, but for the one in its hand; all together none is lost and none invented |
| ServerMessages.FetchedInOrder | src/server.c:229-257 | the messages of one client are popped in the order in which they were read |
| ServerMessages.StuckHasDelivered | src/server.c:229-268 | when the server can go no further, the messages that were fanned out are exactly those that were read |
| ServerMessages.ClientsAreServedAsAsked | src/server.c:179-243 | a client that was counted is in the group it asked for, in a slot of its own, which holds 0, then the descriptor with which the client came, then -1 once it has left |
| ServerMessages.DescriptorsHaveClients | src/server.c:193-213 | every stored descriptor is the one of a client that has this slot |
| ServerMessages.MembersAreReached | src/server.c:251-268 | a message is written exactly once to every client of its group whose descriptor was stored before the message was fetched and that stays until the fan-out is over, to the descriptor with which the client came |
| Utf8Codec.DecodeEncode | src/fort.c:1456-1542 | decoding an encoded codepoint gives it back |
| Utf8Codec.ShortestIsEncoded | src/fort.c:1375-1454 | a byte sequence in the shortest form is the encoding of what it decodes to |
| Utf8Codec.EncodeIsShortest | src/fort.c:1497-1542 | encodings are in the shortest form, and are as long as `utf8codepointsize` says |
| Utf8Order.EncodeIsPositional | src/fort.c:1497-1542 | the bits of the bytes, most significant first and without the fixed ones, have the value of the codepoint |
| Utf8Order.DecodeIsPositional | src/fort.c:1456-1482 | what is decoded has the value of these bits |
| Utf8Order.EncodeKeepsOrder | src/fort.c:1497-1542 | one codepoint is smaller than another one iff its bytes are |
| Utf8Order.StringsKeepOrder | src/fort.c:1456-1542 | comparing whole strings byte by byte is comparing them codepoint by codepoint |
| Utf8Strings.Utf8Codepoint | src/fort.c:1456-1482 | reads the codepoint that the bytes from a position encode and where the next one starts |
| Utf8Strings.Utf8CatCodepoint | src/fort.c:1497-1542 | writes the encoding and nothing else, or nothing if it does not fit |
| Utf8Strings.PrefixCode | src/fort.c:1456-1482 | no encoding of a codepoint sequence reads as another one |
| Utf8Strings.DecodingIsUnique | src/fort.c:1375-1454 | a well-formed string is the encoding of one codepoint sequence only |
| Utf8Strings.LeadByteIsBoundary | src/fort.c:1291-1325 | a byte that is no continuation byte starts a codepoint |
| Utf8Strings.Utf8Valid | src/fort.c:1375-1454 | null exactly for the encodings of sequences over 1..0x1FFFFF |
| Utf8Search.Utf8Len | src/fort.c:822-848 | the number of codepoints |
| Utf8Search.NoOccurrenceBetween | src/fort.c:1291-1325 | a well-formed needle occurs at codepoint boundaries only |
| Utf8Search.Utf8Str | src/fort.c:1291-1325 | the first occurrence of the needle's bytes, although only boundaries are tried |
| Utf8Search.OccursIffCodepoint | src/fort.c:662-702 | the bytes of a codepoint occur at a boundary iff that codepoint stands there |
| Utf8Search.Utf8Chr | src/fort.c:662-702 | the first place of a codepoint |
| Utf8Search.Utf8ChrCount | src/fort.c:6259-6272 | the number of codepoints that equal the one sought |
| Utf8Case.LowerKeepsSize | src/fort.c:1590-1665 | every lower-cased codepoint has the encoded size of the original |
| Utf8Case.UpperKeepsSize | src/fort.c:1667-1742 | every upper-cased codepoint has the encoded size of the original |
| Utf8Case.LowerTwice | src/fort.c:1590-1665 | lower-casing a codepoint twice changes nothing more |
| Utf8Case.UpperTwice | src/fort.c:1667-1742 | upper-casing a codepoint twice changes nothing more |
| Utf8Case.LowerInverts | src/fort.c:1590-1742 | what has a lower-case form is the upper-case form of that, without exception, and has no upper-case form itself |
| Utf8Case.UpperInverts | src/fort.c:1590-1742 | what has an upper-case form is the lower-case form of that, without exception, and has no lower-case form itself |
| Utf8Case.Alphabets | src/fort.c:1592-1597 | the letter at each place of an alphabet goes to the letter at the same place: A to a, and so on for Latin-1 and Greek; no other byte of ASCII has a case |
| Utf8Case.PairedBlocks | src/fort.c:1598-1608 | in the blocks that start with an even codepoint, upper and lower case take turns |
| Utf8Case.OddPairedBlocks | src/fort.c:1609-1615 | and so they do in the blocks that start with an odd one |
| Utf8Case.Utf8Lwr | src/fort.c:1548-1567 | the string becomes the encoding of its lower-cased codepoints, in place and of the same length |
| Utf8Case.Utf8Upr | src/fort.c:1569-1588 | the string becomes the encoding of its upper-cased codepoints, in place and of the same length |
| Utf8Case.MappingIsIdempotent | src/fort.c:1548-1588 | mapping a whole string twice changes nothing more |
| Utf8Case.MappingsAbsorb | src/fort.c:1548-1588 | mapping a string to one case by way of the other is mapping it there directly |
| Fields.JoinSplit | src/fort.c:5791-5819 | joining the pieces of a string gives it back |
| Fields.SplitJoin | src/fort.c:5791-5819 | the pieces are the only way to write the string as pieces without separators |
| Fields.PieceCount | src/fort.c:3881-3894 | there is one piece more than there are separators |
| Fields.PieceAt | src/fort.c:6277-6363 | piece k runs from its start to the next separator, behind which the next one starts |
| CellText.StrChrCount | src/fort.c:6215-6228 | the number of occurrences of a character |
| CellText.LinesAreBetweenNewlines | src/fort.c:6577-6595 | the lines of a text hold no newline, and are the text again when joined by newlines |
| CellText.StrNSubstringBeg | src/fort.c:6277-6295 | the start of piece n, if there are so many |
| CellText.StrNSubstring | src/fort.c:6346-6363 | the bounds of piece n, if there are so many |
| CellText.BufferTextVisibleHeight | src/fort.c:6577-6595 | the number of lines, none for the empty text |
| CellText.BufferTextVisibleWidth | src/fort.c:6642-6692 | the length of the longest line |
| TableModel.GroupCellNumber | src/fort.c:5505-5526 | a master with all slaves that follow it, one column for other cells, none for a missing cell |
| TableModel.SpannedIsWellFormed | src/fort.c:5548-5574 | a row with a new span is well formed if it was, and the span takes the columns asked for |
| TableModel.RowSetCellSpan | src/fort.c:5548-5574 | an error for fewer than two columns; else the span is set, the row is filled up as needed, and nothing else changes |
| TableModel.CellVisWidth | src/fort.c:2359-2381 | paddings and longest line, at least the minimal width |
| TableModel.HintHeightCell | src/fort.c:2413-2431 | paddings and lines, or the height of an empty string |
| TableModel.VisWidthIsLeast | src/fort.c:2359-2381 | no line with its paddings is wider, nor is the minimal width, and one of these is as wide |
| TableModel.HintHeightIsLines | src/fort.c:2413-2431 | a text takes its lines, an empty one the height of an empty string |
| Layout.ShareStep | src/fort.c:7104-7112 | dealing out one unit more gives it to the column whose turn it is |
| Layout.SpanIsWidened | src/fort.c:7097-7112 | one span ends as wide as it was or as it needs, changes no other column, shrinks none, and its increments differ by at most one, earlier columns first |
| Layout.WidenGroup | src/fort.c:7097-7112 | the unit-by-unit loop computes just these widths |
| Layout.MaxCommonIsLargest | src/fort.c:7036-7065 | without spans a column is as wide as the widest of its common cells, and no wider |
| Layout.WidthsFitAllCells | src/fort.c:7036-7117 | the final widths satisfy every common cell and every span at once, although overlapping spans are widened one after another |
| Layout.RoomForTags | src/fort.c:7067-7117 | the reserved widths hold, in every column, the widest cell and the longest tags, and in every span the span with its own tags |
| SpanOrder.WidthsFollowOrder | src/fort.c:7083-7117 | the final widths are those of the cells, widened for one span after the other: by starting column from left to right, and from top to bottom |
| TableSizes.NoSpansNoChange | src/fort.c:7083-7117 | skipping the second pass in a table without spans changes nothing |
| TableSizes.TableRowsAndColsGeometry | src/fort.c:7008-7137 | the loops compute the solved widths and the heights of the rows |
| TableSizes.GetTableSizes | src/fort.c:6989-7004 | the number of rows and the length of the longest one |
| TableSizes.MaxBorderElemStrlen | src/fort.c:5141-5158 | the longest glyph of all three styles, at least 1 |
| TableSizes.TableGeometry | src/fort.c:7144-7188 | the lines and the bytes for each that are reserved |
| Rendering.CellLineMeasure | src/fort.c:2435-2525 | a cell's line is as wide as its columns, has the text at its offset and blanks elsewhere, and is longer in bytes by the four tags |
| Rendering.TextLineMeasure | src/fort.c:6749-6809 | an aligned line fills its width, the text behind its share of the slack |
| Rendering.SolverCovers | src/fort.c:6115-6126 | with the solved widths every cell that is printed fits its columns |
| Rendering.PrintedReach | src/fort.c:6115-6141 | what is printed at a column reaches to one place before the next column's cell |
| Rendering.CellsMeasure | src/fort.c:6113-6142 | the cells of a line with their borders end where the columns end |
| Grid.CellsAreShown | src/fort.c:6113-6142 | from every cell on, each cell to its right stands at the start of its column, behind a border |
| Grid.ContentLineIsGridLine | src/fort.c:6105-6153 | every printed line of a row is a line of the grid: cells in their columns, borders between and around, margins blank |
| Separators.SeparatorIsGridLine | src/fort.c:5717-5749 | every printed separator is a line of the same grid, its junctions where the borders of the rows are |
| Separators.JunctionJoinsBorders | src/fort.c:5728-5739 | a junction joins exactly the borders that the rows above and below show in front of the column |
| Borders.TopLine | src/fort.c:5672-5682 | the line above the first row, from the fields of the border: tl, tt, tr, and tv where a border meets it; the header border if the first row is one |
| Borders.BottomLine | src/fort.c:5692-5702 | the line below the last row: bl, bb, br, and bv where a border meets it |
| Borders.InnerLine | src/fort.c:5682-5692 | a line between two rows: lh, ih, rh, and ii, ti, bi by the borders above and below; the header border if one of the rows is a header |
| Borders.SwitchedOnLine | src/fort.c:5653-5671 | a line that is switched on: the glyphs of the separator style, with the corners of the border at the table ends |
| Borders.LeftOutLines | src/fort.c:5709-5720 | a line is left out iff its corners, its line glyph and its crossing are empty or one unprintable byte |
| Borders.LeftOutOnLines | src/fort.c:5709-5720 | the same for a line that is switched on |
| Borders.RowLine | src/fort.c:6090-6141 | the borders of a row in the output: ll, rr, and iv in front of every cell that no span covers, of the header border in a header row |
| TableText.Rectangular | src/fort.c:3377-3389 | all separators and content lines have the same visible width, whatever spans, alignments, paddings or missing cells there are |
| TableText.LineOfRow | src/fort.c:3377-3384 | the place in the output at which a line of a row stands |
| TableText.TextLineIsPrinted | src/fort.c:2491-2515 | line k of a cell's text stands in line paddingTop + k of its row, in its columns, at the offset of its alignment |
| Alignment.TextIsAligned | src/fort.c:2491-2515 | in the output, a text block stands between the paddings with blanks as its alignment asks: none before it, none behind it, or as many before as behind or one fewer; everything else in the columns is blank |
| Alignment.TextLineIsAligned | src/fort.c:6767-6804 | the same of one aligned line |
| Alignment.TagsAroundText | src/fort.c:2502-2513 | the bytes of a cell line with text: cell tag, blanks, content tag, text, reset of the content, blanks, reset of the cell |
| Alignment.TagsAroundBlanks | src/fort.c:2491-2499 | the bytes of a cell line without text: the same tags, and blanks |
| Alignment.RowHeightIsNeeded | src/fort.c:7036-7065 | a row has as many lines as one of its columns needs, also one without a cell, and no column needs more |
| TableText.OutputIsGrid | src/fort.c:3370-3395 | every line of every row and every separator that can be seen stands at its place in the output as a line of one grid |
| GridLines.GridLineIsUnique | src/fort.c:6105-6153 | a grid leaves nothing open in a line of a row: two lines that meet its description are equal |
| GridLines.SeparatorLineIsUnique | src/fort.c:5717-5749 | nor in a separator |
| GridLines.EveryLineHasPlace | src/fort.c:3370-3395 | every line of the output is a blank line of a margin, a separator that can be seen, or a line of a row, at the place computed for it |
| BufferBound.WidenTracks | src/fort.c:7093-7112 | where tags keep clear of spans, both geometries widen a span alike |
| BufferBound.CellsBound | src/fort.c:6113-6142 | a content line takes at most the reserved widths and the longest glyph for each border |
| BufferBound.OutputAlwaysFits | src/fort.c:3319-3395 | the bytes reserved suffice for the whole output when no cell in a column of a span has style tags |
| BufferBound.TagsOrSpansFit | src/fort.c:3319-3395 | in particular for tables without tags and for tables without spans |
| ExactSize.OutputSizeIsPredicted | src/fort.c:3319-3395 | the exact number of bytes of the output of every table with well-formed spans |
| ExactSize.FitsExactly | src/fort.c:3319-3337 | the output fits into the reserved bytes if and only if the predicted size does |
| Reservation.ReservationIsExact | src/fort.c:7144-7188 | the output of a table without tags, with glyphs of one byte and all separators, takes exactly the bytes reserved |
| ExactSize.SilentTable | src/fort.c:3354-3395 | exactly the tables for which nothing is printed |
| ExactSize.SilentExample | src/fort.c:3354-3395 | there is such a table, with one row |
| PrintRuns.RunOutcome | src/fort.c:3973-4076 | a series of print calls that starts inside the buffer leaves it exactly if a text meets its end; else it succeeds exactly if there is room for all of it and the end of the string |
| TextPlaces.OverrunsIffTextMeetsEnd | src/fort.c:3368-3395 | the calls for a table leave a buffer of a given size exactly if some line of a text, whose place is computed from widths, heights and lengths, is as long as the room left there or longer by one |
| TextPlaces.ConversionOutcome | src/fort.c:3312-3403 | for every table and size: the conversion leaves the buffer if a text meets its end, else it stays inside and succeeds exactly if the buffer is longer than the output; what is printed is a beginning of the output |
| TextPlaces.LongBufferIsSafe | src/fort.c:3312-3403 | a buffer that is longer than the output is never left, whatever the texts are |
| TextPlaces.ReservedBufferIsSafe | src/fort.c:3319-3395 | where the tags keep clear of the spans, a buffer of the reserved size is never left and the conversion succeeds |
| BufferOverrun.MixedDoesNotFit | src/fort.c:7067-7117 | a table with a span and a bold cell whose output needs 98 bytes where 90 and the end of the string are reserved |
| BufferOverrun.MixedIsRefused | src/fort.c:3312-3403 | the conversion of this table fails with the reserved size, and stays inside the buffer |
| TightBuffer.TightOverruns | src/fort.c:4066-4076 | a table with a span and bold cells for which 145 bytes are reserved and whose conversion then writes behind them |
| Printing.WriteCopies | src/fort.c:3988-3998 | the string n times, closed by a zero |
| Printing.ConvContext.PrintNStrings | src/fort.c:3973-4063 | all or nothing: the copies if there is room for them and the end of the string, else -1 and no byte changed |
| Printing.ConvContext.FtNprint | src/fort.c:4066-4076 | for every length: the text and the end of the string are written, or -1; this stays inside the buffer if and only if the text is shorter than the room left or longer than it by two or more |
| Printing.ConvContext.BufferPrintf | src/fort.c:6749-6809 | the calls for the aligned line up to the first that fails, or -1 for a line that does not exist or a width that is too small |
| RowPrinting.CellPrintf | src/fort.c:2435-2525 | the calls for the line of the cell up to the first that fails, or -1 if the columns are too narrow |
| RowPrinting.PrintCells | src/fort.c:6113-6142 | the calls for the cells of one line with their borders, up to the first that fails |
| RowPrinting.SnprintfRow | src/fort.c:6072-6153 | the calls for all lines of a row up to the first that fails, or -1 if it has more cells than there are columns |
| SeparatorPrinting.RowCellTypes | src/fort.c:5530-5544 | the kinds of the cells of a row; common cells where it has none, one span where there is no row |
| SeparatorPrinting.ChooseGlyphs | src/fort.c:5636-5707 | the glyphs of a separator by its place, the header rows beside it and whether it is switched on |
| SeparatorPrinting.PrintRowSeparator | src/fort.c:5577-5754 | the calls for one line up to the first that fails, or nothing when none of its glyphs can be seen |
| TablePrinting.PrintRows | src/fort.c:3377-3384 | the calls for every row with the separator above it, up to the first that fails |
| TablePrinting.Converter.Reserve | src/fort.c:3328-3337 | a buffer of at least the size asked for, of just that size if there was none, else by as many doublings as needed |
| TablePrinting.Converter.ToString | src/fort.c:3312-3403 | for every table with well-formed spans: if no text meets the end of the buffer, the buffer is returned exactly if it is longer than the output, else NULL, and no byte behind it is written; a returned buffer holds exactly the output and the end of the string, or is left alone when there is nothing to print; if a text meets the end, a part of the output and its end stand behind the buffer |
| Vectors.ReplaceConserves | src/fort.c:7370-7421 | items that replace others and the others are together the items there were |
| Vectors.InsertConserves | src/fort.c:7299-7324 | inserting loses and duplicates nothing |
| Vectors.ReplacedPlaces | src/fort.c:7370-7421 | where every item is after a replacement, and which were displaced |
| Vectors.InsertedPlaces | src/fort.c:7299-7324 | where every item is after an insertion |
| Vectors.ErasedPlaces | src/fort.c:7430-7442 | where every item is after an erasure |
| Vectors.Vector.constructor | src/fort.c:7231-7250 | an empty vector of the capacity asked for |
| Vectors.Vector.Push | src/fort.c:7279-7296 | the item is appended, after doubling a full vector |
| Vectors.Vector.Insert | src/fort.c:7299-7324 | the items behind the place move up by one; behind the end, the vector grows up to the place and keeps its items; the capacity grows only as needed |
| Vectors.Vector.Split | src/fort.c:7327-7347 | the items from a place on move to a new vector |
| Vectors.Vector.Swap | src/fort.c:7370-7421 | the items of the other vector replace those from a place on, which go to the other vector; behind the end, the vector grows and nothing is displaced |
| Vectors.Vector.Erase | src/fort.c:7430-7442 | the item leaves; an error if there is no such item |
| Rows.Row.Destroy | src/fort.c:5302-5313 | every cell of the row is destroyed, once |
| Rows.Row.SplitRow | src/fort.c:5339-5352 | the cells from a place on change their owner |
| Rows.Row.SwapRow | src/fort.c:5456-5470 | as `vector_swap`, also when the two rows just exchange their vectors |
| Rows.Row.InsertRow | src/fort.c:5474-5501 | the cells move between those of the row, which is filled up first |
| Rows.ReplaceKeepsDistinct | src/fort.c:5456-5470 | cells kept and cells displaced have none in common |
| Rows.Row.PutCells | src/fort.c:2924-2941 | every cell, old or new, stays live in the row or is destroyed with the temporary row, and never both |
| Rows.EraseTimes | src/fort.c:5369-5372 | erasing n times at one place removes n items, as far as there are so many |
| Rows.ErasedRangePlaces | src/fort.c:5355-5374 | cells in front of the range keep their index, those behind it move up by the size of the range, and the erased ones are those of the range |
| Rows.ErasedRangeConserves | src/fort.c:5355-5374 | every cell stays or is in the range; none is lost or duplicated |
| Rows.Row.EraseRange | src/fort.c:5355-5374 | the cells of the range leave the row; of the old cells, exactly those of the range are destroyed |
| TableRows.TableObject.RowPrintf | src/fort.c:2902-2941 | the row is filled or replaced at the cursor, other rows stay as they are, the temporary row and the displaced cells are destroyed |
| TableRows.WithoutNext | src/fort.c:2866-2883 | going one row further keeps it or leaves it out |
| TableRows.VisitStep | src/fort.c:2868-2883 | rows and separators are erased at the same place while the loop walks over the shrinking lists |
| TableRows.TableObject.RemoveEmptyRows | src/fort.c:2862-2883 | exactly the empty rows of the range leave, each with its separator; the others keep their order |
| TableRows.TableObject.EraseRange | src/fort.c:2832-2887 | of the old cells, exactly those of the rectangle are destroyed and leave their rows; then exactly the rows of the range left empty leave, with their separators; `FT_CUR_ROW` and `FT_CUR_COLUMN` both stand for the current row |
| RowParsing.ColumnsNumber | src/fort.c:3881-3894 | the number of pieces |
| RowParsing.CreateRowFromString | src/fort.c:5767-5851 | one cell for every piece, also for empty ones in any place; joined again they are the string |
| FormattedRows.CreateRowFromFmtString | src/fort.c:6000-6068 | the pieces if there are as many as in the format, the whole string if the format has one column, else an error |
| FormattedRows.FieldsAre | src/fort.c:6000-6068 | the only fields that are as many as the format has, hold no separator, and join to the string; one field if the format has no separator; an error exactly if the numbers of separators differ and the format has one |
| FormattedRows.FtRowPrintf | src/fort.c:2890-2947 | the texts of the row are the old ones with the fields put in at the cursor, which moves behind them; nothing happens on an error |

## Left out

- Sockets, partial and failed I/O, signal handlers, log files and shutdown: reads are input steps, and a write is an entry in a history.
- `src/client.c`, `src/testRig.c`, `runNTP` and clocks: insertion times and delays are not part of the messages here.
- Memory ordering: the steps interleave one after another, also for the reads of `connections` and `connectionCount` that take no lock.
- The fixed sizes of the join registry: creating a group and counting a member require that there is room, as the code does not test it.
- ServerDrain.ServerDrains: asks for at least one delivering thread and a capacity of at least one, as the server has.
- Message group ids are only assumed to be below the number of groups; a descriptor of an accepted connection is not negative.
- `utf8codepoint` on a lone continuation byte, outside of well-formed strings; masks and shifts are written as ranges, divisions and remainders.
- `utf8cspn`, `utf8spn`, `utf8pbrk`, `utf8rchr`, `utf8ncat` and `utf8ncasecmp`: the table code does not use them.
- Wide-character and UTF-8 rendering and user-supplied widths: the same loops with other width functions.
- Failing allocation and the clean-up after it: every allocation succeeds, and sizes do not overflow a machine word unless a member says so.
- `vsnprintf`: `FormattedRows.CreateRowFromFmtString` takes the formatted string as an argument.
- The property container and the built-in styles: properties, glyphs and tags are arbitrary.
- TablePrinting.Converter.ToString: requires an output of at most INT_MAX bytes, which the printers return as an `int`, and a reserved size whose double is a `size_t`; the printers below it compute with sizes that do not overflow an `int`.
- Bytes behind a buffer are shown as far as the output and two bytes more may reach; what else lives there, and what happens when it is overwritten, is not part of the model.
- RowPrinting.SnprintfRow: requires that every span of the row starts with a master; inserting cells into a span can leave others, of which `ft_to_string` prints a slave as a cell of its own or fails. `TablePrinting.PrintRows` and `TablePrinting.Converter.ToString` require it of every row.
- Rows.Row.SwapRow: requires a place within the row or right behind it; further behind, the source leaves pointers to cells that were never written, as `Vectors.Vector.Swap` says for any items.
- Rows.Row.PutCells: requires the same of the cursor with the replacing strategy.
- TableRows.TableObject.RowPrintf: requires the same of the cursor with the replacing strategy.
- FormattedRows.FtRowPrintf: requires the same of the cursor with the replacing strategy.
- Vectors.Vector.Push: requires a capacity above zero in a full vector, as the source's assertion on the new capacity does.
- TableRows.TableObject.EraseRange: requires a table with rows and a first row that exists or is the one right behind the last; else the source reads behind the end of the list of rows.
- Rows and tables hold their lists as sequences that behave as `Vectors` proves it for arrays; capacity and reallocation of these lists are not repeated there.
- `ft_copy_table`, `ft_ln`, `ft_write` and the other entry points: they call what is modelled here, cell by cell.
