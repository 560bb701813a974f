# A verified model of a native ClickHouse client for PHP

The project models the parts of the extension and of its patched clickhouse-cpp library in which data
can be lost, changed or finalized by mistake, and proves what they keep:

- **Text import and export** (`TextFormat`, `TextRoundTrip`, `TextForms`, `StreamExport`, `StreamImport`): the TSV
  and CSV printer, and the byte-driven parser that may be fed in pieces cut anywhere (section 2 of RFC 4180, with an
  unquoted `\N` for NULL). The parser object with its lookahead is proved equal to a fold of a one-byte step.
- **Columns** (`LowCardinality`, `LowCardinalityWire`, `ColumnTree`, `ColumnLayout`, `ArrayColumn`, `StringArena`,
  `FlatColumns`, `WireFormat`): containers that stand for plain lists, and the native serialization of any nesting of them
  (unsigned LEB128, section 7.6 of the DWARF 5 standard).
- **Exact arithmetic** (`Arithmetic`, `Digits`, `Calendar`, `DateTime64`, `Int128Text`, `DecimalText`,
  `DecimalInsert`): the proleptic Gregorian calendar, scaled times, 128-bit integers and decimals, as text and back.
- **The session** (`NativeProtocol`, `NativeGuarantees`, `NativeClient`, `ClickHouseSession`, `SessionGuarantees`,
  `ClickHouseObject`): the native client and the PHP object above it, with a network in which every connect, send
  and receive may fail. A run is a list of operations on a list of network replies; theorems are about all runs on
  all networks. `Verdicts` says which replies make an operation succeed, and with which exception it fails otherwise,
  `SessionVerdicts` which calls of the object are refused and which exception the others report.
  `WireHistory`, `InsertClosings`, `BrokenInserts` and `FailingRuns` say exactly which operations close
  an insert, close it twice, or close it on a socket on which a block has failed. `Reentrancy` adds user code that
  calls the object again in the middle of an operation, `ImportOnWire` puts the parser's view of an import and the
  session's together, `KeptConnections` says when a query keeps a connection that is out of step.
- **Byte streams** (`BufferedReads`, `InputStreams`, `BufferedWrites`, `HealthyWrites`, `OutputStreams`,
  `CompressedStreams`, `FrameLayout`, `BlockWrites`, `QuotedString`): buffers over partial reads and writes,
  compressed frames, the whole write path of a data packet, query parameters.
- **SQL text** (`SqlText`): quoting, identifiers, redaction, the bounded query log.

Objects that the program updates in place are classes here, and each method is proved equal to a function on
values; the theorems are about those functions. Exceptions are results. `Bytes`, `Digits` and `Arithmetic` hold
shared helpers. `KnownAnswers` writes the bytes of small examples out.

## Where the code does less than it promises

Each of these is proved: as an "if and only if", on a concrete input, or as what a contract says after an exception.

- A row made of separators alone does not make the parser forget a carriage return, so the line feed after it is
  taken for the rest of a CRLF (`TextRoundTrip.RoundTrip`). Neither TSV nor CSV export writes such input.
- A one-column row holding the empty string is exported as a blank line, which the import skips
  (`TextRoundTrip.ExportImport`).
- Slices of a nullable LowCardinality column read the empty string as NULL (`LowCardinality.SliceReadsBack`), a
  dictionary that outgrows a loaded narrow index hands out the index of another value
  (`LowCardinality.AppendTooWide`), and an append whose null map cannot grow leaves its value behind, for the next
  new value to be read as (`LowCardinality.HalfAppendMisreads`).
- `WriteString` writes strings of any length, `ReadString` refuses those above 16 MiB less one byte
  (`WireFormat.StringRoundTrip`, `WireFormat.SixteenMebibytesAreRefused`).
- The bytes of a column that are cut short do not load (`ColumnLayout.CutColumnFails`), but a LowCardinality column
  that is cut inside its indexes does (`ColumnLayout.CutDictionaryLoads`): the missing indexes are zero
  (`ColumnLayout.MissingIndexesAreZero`).
- An array column that is appended to one of another nested type loses its values but not its rows: the offsets run
  ahead of the data (`ArrayColumn.ColumnArray.Append`).
- Decimal text without a dot is stored unscaled, PHP integers included. The precision check looks at plain texts
  only, and the column never looks behind the digits that fit the scale: any byte there that is no digit turns the
  check off. `10000000000.00x` is accepted into a Decimal(9, 2) and cut to 32 bits. An accepted and parsed text is
  stored as the number it denotes if and only if it is plain and has a dot, or nothing to scale, or is zero
  (`DecimalInsert.ExactIfPlainAndDotted`); the value fits the precision if and only if its integer part leaves room
  for the scale (`DecimalInsert.AcceptedFitsPrecision`). Of a float that PHP prints with an exponent only the mantissa
  is stored: 1.0E+25 becomes 1.0 (`DecimalInsert.ExponentIsDropped`, `DecimalInsert.FloatLosesExponent`).
  CHANGELOG.md:117 promises that whatever exceeds the precision or the scale is rejected.
- A DateTime64 value is read and inserted unchanged only if its year has four digits and its whole second is not
  the partial one at the bottom of the 64-bit range (`DateTime64.CellRoundTrip`).
- A socket on which a block has failed stays in use only if the recovery threw as well
  (`BrokenInserts.DirtyOnlyAfterFailedRecovery`). It is finalized exactly if an operation, or the destructor, closes
  an insert on it (`BrokenInserts.RunFinalizesOnlyReused`), and that happens (`FailingRuns.ReuseHappens`). In between,
  `writeEnd` reports success although nothing was finalized.
- An import is closed a second time exactly if it reaches the client, starts, sends no block, comes to the end of its
  input, and the first close throws (`InsertClosings.OperationTally`, `InsertClosings.RunClosesAgain`); nothing else
  closes an insert twice. The second close is on the same socket (`FailingRuns.EmptyImportClosesTwice`).
- A stream that stops after a log packet, or inside one, counts as the confirmed end of an insert
  (`NativeGuarantees.EndInsertConfirmed`, `NativeGuarantees.CutConnectionSucceedsAfterLog`).
- A query keeps its connection without a recovery although the stream is out of step, exactly if no packet follows, or
  a log or information packet, or (with exceptions on) the exception of the server, cannot be read to its end: a text
  above the limit of `ReadString`, say. It succeeds, or reports the exception (`KeptConnections.KeptOutOfStep`). The
  comment at clickhouse.cpp:2134-2139 takes the wire for clean after every server exception.
- A compressed frame whose hash does not match is consumed before the exception: a reader that goes on gets the frame
  behind it (`CompressedStreams.BadFrameIsPassed`).
- A flush that throws keeps all of its bytes waiting, those included that have gone out. It throws exactly if the
  socket throws before it has taken all of them, and the stream is conserved if and only if it does not throw or the
  socket took nothing (`BufferedWrites.FlushConserves`; over any run of writes and flushes,
  `BufferedWrites.RunConserves`). The next flush that succeeds sends those bytes again (`BufferedWrites.FlushedTwice`,
  `BufferedWrites.NextMessageFollows`); with one byte that is received twice, `BufferedWrites.OneByteTwice`.
- A quote directly after a string literal joins the next literal to it, so the redacted text shows one placeholder
  for both (`SqlText.RedactAbsorbsLiteral`).

## Model

| member | source | states |
|---|---|---|
| `TextFormat.FoldConcat` | clickhouse.cpp:3490-3630 | parsing two pieces one after the other is parsing their concatenation, from any state, errors included |
| `TextFormat.ChunkIndependence` | clickhouse.cpp:3490-3653 | any way of cutting the input gives the state, rows and error of the uncut input |
| `TextFormat.AnyTwoCuts` | clickhouse.cpp:3490-3653 | two different cuts of the same bytes end alike |
| `TextRoundTrip.RoundTrip` | clickhouse.cpp:3490-3653 | printed rows, any mixture of line ends, come back unchanged and in order without blank rows, if and only if no line feed is swallowed; otherwise the parse fails |
| `TextRoundTrip.ExportImport` | clickhouse.cpp:2962-2985 | what the export loop writes, header or not, the parser delivers unchanged, NULL apart from the text `\N`, if and only if no row is a single empty string |
| `TextRoundTrip.NonBlankKeepsAll` | clickhouse.cpp:3581-3585 | skipping blank rows keeps every row exactly if no row is blank |
| `TextRoundTrip.HeaderLine` | clickhouse.cpp:3436-3473 | a header with the declared names in order, ended in any of the three ways, is consumed once and never delivered |
| `TextRoundTrip.FirstLine` | clickhouse.cpp:3436-3473 | a first line with any cells is taken if and only if they are the declared names in order; otherwise the import fails on the number of columns or on a name |
| `StreamImport.WrongHeaderStops` | clickhouse.cpp:3436-3473 | so an import with another header takes no row, and a total means that the first line was the names |
| `TextRoundTrip.RowsFrom` | clickhouse.cpp:3490-3653 | from any line start: the remaining printed rows are delivered if and only if none of their line feeds is swallowed, now or later |
| `TextRoundTrip.LostLineFeed` | clickhouse.cpp:3570-3590 | a swallowed line feed runs two rows together and the parse fails on their width |
| `TextRoundTrip.BlankLine` | clickhouse.cpp:3575-3590 | a blank line leaves the state as it was, for any line end |
| `TextRoundTrip.CellReadBack` | clickhouse.cpp:2692-2732 | the bytes printed for a cell bring the parser to the state from which exactly that cell is finished |
| `TextForms.TsvIsPlain` | clickhouse.cpp:2692-2706 | no tab, line end or NUL is left in a TSV cell, and other text without backslashes is unchanged |
| `TextForms.CsvIsQuoted` | clickhouse.cpp:2708-2732 | CSV text is quoted exactly if it has a quote, comma or line end, or is the mark for NULL |
| `TextForms.TsvLines` | clickhouse.cpp:2962-2985 | a TSV file has one line feed a row, and no carriage return or NUL |
| `TextForms.CsvLines` | clickhouse.cpp:2962-2985 | a CSV file ends every line with a carriage return and a line feed |
| `TextForms.EscapeIsRead` | clickhouse.cpp:3496-3521 | a backslash and a letter are read as in C, any other byte but N as itself |
| `TextForms.NullIsRead` | clickhouse.cpp:3496-3521 | a backslash and an N are NULL at the start of a cell, after which the cell must end, and themselves elsewhere |
| `TextForms.QuoteThenByte` | clickhouse.cpp:3555-3566 | behind a quoted cell only a separator or a line end may come |
| `TextForms.UnterminatedQuoteFails` | clickhouse.cpp:3633-3653 | input that ends inside quotes fails, with the rows before it taken |
| `TextForms.WidthDecides` | clickhouse.cpp:3473-3486 | a row is taken if and only if it has the right width |
| `TextForms.LastLineNeedsNoEnd` | clickhouse.cpp:3633-3653 | the last line is taken, or refused, without a line end exactly as with one |
| `KnownAnswers.TsvLine` | clickhouse.cpp:2828-2851 | a line with a NULL in TSV, byte for byte |
| `KnownAnswers.CsvLine` | clickhouse.cpp:2828-2851 | a line with a NULL and a quoted cell in CSV, byte for byte |
| `KnownAnswers.Escapes` | clickhouse.cpp:2692-2706 | every byte that TSV escapes, with its escape |
| `StreamExport.StreamPrinter.TsvAppendEscaped` | clickhouse.cpp:2692-2706 | appends exactly the TSV escape of any byte string |
| `StreamExport.StreamPrinter.CsvAppendEscaped` | clickhouse.cpp:2708-2732 | appends the bytes, quoted and with doubled quotes exactly if they need it |
| `StreamExport.StreamPrinter.AppendCell` | clickhouse.cpp:2828-2851 | NULL becomes `\N`, text becomes its escape |
| `StreamExport.StreamPrinter.AppendRows` | clickhouse.cpp:2963-2982 | after any number of rows the printed text is the export of the rows so far |
| `StreamExport.StreamPrinter.OnData` | clickhouse.cpp:2924-2985 | a block adds exactly the export of its rows, after the header for the first; fails exactly if the stream does not take all of that |
| `StreamExport.StreamPrinter.FlushStreamBuf` | clickhouse.cpp:2853-2876 | all of the buffer is written in spite of partial writes exactly if the stream takes that much; otherwise as much as it takes |
| `StreamExport.SelectToStream` | clickhouse.cpp:2886-2992 | succeeds exactly if the stream takes all texts; then it holds the export of all rows, however cut into blocks, and the count is their number; otherwise a beginning of that |
| `StreamImport.InsertStreamParser.FinishRow` | clickhouse.cpp:3436-3486 | checks and drops the header, checks the width, hands the row over; each failure leaves what the step says |
| `StreamImport.InsertStreamParser.EndLine` | clickhouse.cpp:3575-3590 | a line end finishes the row, completes a CRLF or counts a blank line |
| `StreamImport.InsertStreamParser.DecodeEscapeByte` | clickhouse.cpp:3496-3521 | an escape byte has the same meaning whether or not it arrived with its backslash; `N` makes NULL only at the start of a cell |
| `StreamImport.InsertStreamParser.Feed` | clickhouse.cpp:3490-3630 | one call, with its lookahead inside the chunk, is the fold of the one-byte step over the chunk |
| `StreamImport.InsertStreamParser.Finish` | clickhouse.cpp:3633-3653 | the end of the input finishes a last row without a line end and refuses open quotes |
| `StreamImport.RowBatcher.OnRow` | clickhouse.cpp:3824-3843 | refuses NULL for a column that is not nullable, and sends a block as soon as it is full |
| `StreamImport.RowBatcher.FlushBatch` | clickhouse.cpp:3809-3822 | sends the waiting rows as one block of columns; dirty exactly if the send itself failed |
| `StreamImport.BatchesAreFull` | clickhouse.cpp:3809-3843 | blocks sent before the end have exactly the batch size, and fewer rows are waiting |
| `StreamImport.BatchesHoldRows` | clickhouse.cpp:3809-3843 | the sent blocks and the waiting rows are the rows taken, in order |
| `StreamImport.ImportConservesRows` | clickhouse.cpp:3809-3881 | the blocks concatenate to exactly the parsed rows, have 1 to batch_rows rows, and read back as those rows |
| `StreamImport.BatchesByNumber` | clickhouse.cpp:3809-3843 | how many blocks are whole and how many rows wait: quotient and remainder of the number of rows |
| `StreamImport.TakesDecides` | clickhouse.cpp:3824-3843 | a row is taken if and only if it has no NULL where none is allowed and the block it completes, if any, is sent |
| `StreamImport.EndDecides` | clickhouse.cpp:3862-3890 | from the number of rows taken: how many blocks were sent, whether all were, and whether one was on its way |
| `StreamImport.ReadAll` | clickhouse.cpp:3862-3879 | whatever the cut: the rows taken and the error, if any, are those of parsing the concatenation; a stream that fails is reported exactly if its bytes parse so far |
| `StreamImport.InsertFromStream` | clickhouse.cpp:3777-3905 | succeeds exactly if the text parses, every block is sent and the insert ends; then the total is the number of rows sent; on any failure says what was taken and sent and whether a block was on its way, and so which recovery is chosen |
| `ImportOnWire.ImportRecovers` | clickhouse.cpp:3857-3905 | the import of the session, with the blocks and the end that the input gives, succeeds or recovers exactly as the import says |
| `ImportOnWire.ImportMatches` | clickhouse.cpp:3809-3843 | every import that is run ends with all earlier blocks sent, and with a broken one only if that was its send |
| `StreamImport.ExportThenImport` | clickhouse.cpp:3862-3881 | exporting a table and importing the text, cut anywhere, delivers exactly its rows, and the blocks concatenate to them |
| `LowCardinality.AppendKeepsRows` | lib/clickhouse-cpp/clickhouse/columns/lowcardinality.cpp:479-504 | one append keeps the invariant and every earlier row, and the new row reads as the appended value if no other has its key |
| `LowCardinality.AppendTooWide` | lib/clickhouse-cpp/clickhouse/columns/lowcardinality.cpp:219-237 | a dictionary beyond the index width makes the new row read as another value |
| `LowCardinality.RefinesList` | lib/clickhouse-cpp/clickhouse/columns/lowcardinality.cpp:418-504 | after any run of appends and clears the column is valid and reads as the plain list if and only if no two values in play share a key |
| `LowCardinality.SliceReadsBack` | lib/clickhouse-cpp/clickhouse/columns/lowcardinality.cpp:433-447 | a slice reads as its rows if and only if the column is not nullable or none of them is empty |
| `LowCardinality.LoadRestores` | lib/clickhouse-cpp/clickhouse/columns/lowcardinality.cpp:304-391 | dictionary values and indexes are enough to restore null map and hash map: every field is as it was |
| `LowCardinality.LoadedDecides` | lib/clickhouse-cpp/clickhouse/columns/lowcardinality.cpp:345-360 | of any dictionary that is read: as many null flags as values, NULL in front; of equal keys the first position is found |
| `LowCardinalityWire.SaveThenLoad` | lib/clickhouse-cpp/clickhouse/columns/lowcardinality.cpp:304-416 | through the bytes, at any index width: every field is restored, and the input after the column is untouched |
| `LowCardinalityWire.RowsOnWire` | lib/clickhouse-cpp/clickhouse/columns/lowcardinality.cpp:464-477 | the rows that the bytes stand for are the rows GetItem reads |
| `LowCardinalityWire.ListTravels` | lib/clickhouse-cpp/clickhouse/columns/lowcardinality.cpp:378-416 | a list built by any run of appends and clears, saved and loaded, reads as that list if and only if no two values in play share a key |
| `LowCardinality.HalfAppendMisreads` | lib/clickhouse-cpp/clickhouse/columns/lowcardinality.cpp:239-264 | after an append that failed at the null map, the next new value reads as the failed one |
| `LowCardinality.ColumnLowCardinality.constructor` | lib/clickhouse-cpp/clickhouse/columns/lowcardinality.cpp:158-202 | starts with the default value, after NULL if nullable |
| `LowCardinality.ColumnLowCardinality.AppendUnsafe` | lib/clickhouse-cpp/clickhouse/columns/lowcardinality.cpp:479-504 | with a failure at any point: either the append of the specification or all fields as before, except at the null map, and which exception is thrown |
| `LowCardinality.ColumnLowCardinality.AppendToDictionary` | lib/clickhouse-cpp/clickhouse/columns/lowcardinality.cpp:118-153 | appends the value and then its null flag; says what each failure leaves |
| `LowCardinality.ColumnLowCardinality.Clear` | lib/clickhouse-cpp/clickhouse/columns/lowcardinality.cpp:418-427 | leaves the freshly constructed column |
| `LowCardinality.ColumnLowCardinality.GetItem` | lib/clickhouse-cpp/clickhouse/columns/lowcardinality.cpp:464-477 | reads the row of the specification |
| `LowCardinality.ColumnLowCardinality.Slice` | lib/clickhouse-cpp/clickhouse/columns/lowcardinality.cpp:433-447 | builds the slice from exactly the rows in range, cut at the end, through the constructor without a NULL slot |
| `ColumnTree.SaveLoad` | lib/clickhouse-cpp/clickhouse/columns/column.cpp:10-22 | any nesting, at least one row: loading all prefixes and then all bodies consumes exactly the saved bytes and gives the column, up to data that no row shows |
| `ColumnTree.LoadedRows` | lib/clickhouse-cpp/clickhouse/columns/column.cpp:10-22 | the loaded column is valid and has the same type, size and rows |
| `ColumnTree.TrimKeepsRow` | lib/clickhouse-cpp/clickhouse/columns/array.cpp:102-128 | data that does not travel shows in no row |
| `ColumnTree.PrefixRoundTrip` | lib/clickhouse-cpp/clickhouse/columns/tuple.cpp:108-132 | the prefix pass of any type reads exactly the prefixes that were written |
| `ColumnTree.BodyRoundTrip` | lib/clickhouse-cpp/clickhouse/columns/tuple.cpp:118-138 | the body pass of any type reads exactly the bodies that were written |
| `ColumnTree.NullableBody` | lib/clickhouse-cpp/clickhouse/columns/nullable.cpp:62-79 | the null map comes first, the nested values after it |
| `ColumnTree.ArrayBody` | lib/clickhouse-cpp/clickhouse/columns/array.cpp:102-128 | offsets first, then data if there is any |
| `ColumnTree.VersionRoundTrip` | lib/clickhouse-cpp/clickhouse/columns/json.cpp:47-71 | the version of a JSON column is written and accepted |
| `ColumnTree.LowCardinalityBody` | lib/clickhouse-cpp/clickhouse/columns/lowcardinality.cpp:304-416 | index type, dictionary and indexes are written and read back at any index width |
| `KnownAnswers.Cells` | lib/clickhouse-cpp/clickhouse/columns/string.cpp:297-301 | a small FixedString and a small String column, byte for byte |
| `KnownAnswers.NullColumn` | lib/clickhouse-cpp/clickhouse/columns/nullable.cpp:62-79 | a small nullable column, byte for byte |
| `KnownAnswers.Fields` | lib/clickhouse-cpp/clickhouse/columns/tuple.cpp:118-138 | a small tuple column, byte for byte |
| `KnownAnswers.Arrays` | lib/clickhouse-cpp/clickhouse/columns/array.cpp:102-128 | a small array column, byte for byte |
| `KnownAnswers.VersionsComeFirst` | lib/clickhouse-cpp/clickhouse/columns/tuple.cpp:108-138 | a tuple of two JSON columns: both versions before both bodies |
| `KnownAnswers.Dictionary` | lib/clickhouse-cpp/clickhouse/columns/lowcardinality.cpp:394-416 | a small LowCardinality column, byte for byte |
| `ColumnLayout.VersionBytes` | lib/clickhouse-cpp/clickhouse/columns/json.cpp:47-71 | the version is one in eight bytes, and no other is accepted |
| `ColumnLayout.HeadBytes` | lib/clickhouse-cpp/clickhouse/columns/lowcardinality.cpp:398-404 | a dictionary begins with the code of the index width and the flag for additional keys |
| `ColumnLayout.HeadDecides` | lib/clickhouse-cpp/clickhouse/columns/lowcardinality.cpp:313-322 | unknown index types, global dictionaries and heads without keys are refused |
| `ColumnLayout.CutColumnFails` | lib/clickhouse-cpp/clickhouse/columns/column.cpp:10-22 | any column without a dictionary, of any nesting, cut anywhere: it does not load |
| `ColumnLayout.CutDictionaryLoads` | lib/clickhouse-cpp/clickhouse/columns/lowcardinality.cpp:340-343 | a column with a dictionary, cut inside its indexes, loads all the same |
| `ColumnLayout.MissingIndexesAreZero` | lib/clickhouse-cpp/clickhouse/columns/lowcardinality.cpp:343 | the rows whose indexes are missing read as the first value of the dictionary |
| `ColumnLayout.NewDictionary` | lib/clickhouse-cpp/clickhouse/columns/lowcardinality.cpp:158-202 | a new dictionary holds the default of its type: zero bytes, or the empty string |
| `ColumnLayout.NoRowsReadNothing` | lib/clickhouse-cpp/clickhouse/columns/array.cpp:102-119 | an array column of no rows reads nothing |
| `ArrayColumn.ColumnArray.Create` | lib/clickhouse-cpp/clickhouse/columns/array.cpp:21-40 | accepts exactly monotone offsets that end at the size of the data |
| `ArrayColumn.ColumnArray.AppendAsColumn` | lib/clickhouse-cpp/clickhouse/columns/array.cpp:49-53 | from any state: data and offsets after it; a consistent column stays so exactly if the nested type fits or nothing is appended, and then has one more row |
| `ArrayColumn.ColumnArray.GetAsColumn` | lib/clickhouse-cpp/clickhouse/columns/array.cpp:55-60 | row n, or an error past the end |
| `ArrayColumn.ColumnArray.Slice` | lib/clickhouse-cpp/clickhouse/columns/array.cpp:62-75 | exactly the rows in range as a consistent column of its own, or an error |
| `ArrayColumn.ColumnArray.Append` | lib/clickhouse-cpp/clickhouse/columns/array.cpp:86-92 | appends all rows of another column; the result is consistent exactly if the nested types agree or there are no values, and otherwise the offsets run ahead of unchanged data by the ignored values |
| `ArrayColumn.ColumnArray.GetSize` | lib/clickhouse-cpp/clickhouse/columns/array.cpp:149-164 | the length of row n |
| `ArrayColumn.RowsFlatten` | lib/clickhouse-cpp/clickhouse/columns/array.cpp:21-40 | the rows of consistent offsets partition the data |
| `ArrayColumn.RowsSnoc` | lib/clickhouse-cpp/clickhouse/columns/array.cpp:154-160 | data and an offset added at the end are one more row and change no other |
| `ArrayColumn.SlicedRows` | lib/clickhouse-cpp/clickhouse/columns/array.cpp:62-75 | shifted offsets describe the rows of the slice |
| `StringArena.Block.AppendUnsafe` | lib/clickhouse-cpp/clickhouse/columns/string.cpp:122-163 | writes behind the bytes in use, inside the capacity, and disturbs none of them |
| `StringArena.ColumnString.AppendUnsafe` | lib/clickhouse-cpp/clickhouse/columns/string.cpp:232-234 | given room, appends one value; every earlier view shows the bytes it showed |
| `StringArena.ColumnString.Append` | lib/clickhouse-cpp/clickhouse/columns/string.cpp:210-216 | appends one value, in a new block if need be |
| `StringArena.ColumnString.AppendOwned` | lib/clickhouse-cpp/clickhouse/columns/string.cpp:222-226 | appends a value without copying it |
| `StringArena.ColumnString.At` | lib/clickhouse-cpp/clickhouse/columns/string.cpp:242-244 | value n, or an error past the end |
| `StringArena.ColumnString.AppendColumn` | lib/clickhouse-cpp/clickhouse/columns/string.cpp:246-259 | one look at the total size makes all unchecked appends safe; the values of both columns follow each other |
| `StringArena.ColumnString.Slice` | lib/clickhouse-cpp/clickhouse/columns/string.cpp:307-321 | copies exactly the values in range |
| `StringArena.ColumnString.LoadBody` | lib/clickhouse-cpp/clickhouse/columns/string.cpp:261-295 | replaces the values by those read, or leaves the column as it was |
| `StringArena.ColumnString.SaveBody` | lib/clickhouse-cpp/clickhouse/columns/string.cpp:297-301 | writes the values as counted strings |
| `FlatColumns.ColumnFixedString.Append` | lib/clickhouse-cpp/clickhouse/columns/string.cpp:37-56 | pads shorter strings, refuses longer ones, keeps every other row |
| `FlatColumns.ColumnFixedString.At` | lib/clickhouse-cpp/clickhouse/columns/string.cpp:62-65 | row n of the flat buffer, or an error |
| `FlatColumns.ColumnFixedString.AppendColumn` | lib/clickhouse-cpp/clickhouse/columns/string.cpp:71-77 | appends the rows of a column of the same width, ignores any other |
| `FlatColumns.ColumnFixedString.Slice` | lib/clickhouse-cpp/clickhouse/columns/string.cpp:96-106 | exactly the rows in range |
| `FlatColumns.PadTellsApart` | lib/clickhouse-cpp/clickhouse/columns/string.cpp:47-55 | two strings are stored alike if and only if they differ in trailing zeros only |
| `FlatColumns.CellsOfRange` | lib/clickhouse-cpp/clickhouse/columns/string.cpp:96-106 | a range of whole cells of the buffer is the same range of rows |
| `FlatColumns.ColumnNullable.Create` | lib/clickhouse-cpp/clickhouse/columns/nullable.cpp:8-16 | accepts exactly parts of equal length |
| `FlatColumns.ColumnNullable.AppendFlag` | lib/clickhouse-cpp/clickhouse/columns/nullable.cpp:18-22 | completes a row whose value has been appended |
| `FlatColumns.ColumnNullable.Append` | lib/clickhouse-cpp/clickhouse/columns/nullable.cpp:42-51 | appends the rows of another column of the same nested type, ignores any other |
| `FlatColumns.ColumnNullable.Slice` | lib/clickhouse-cpp/clickhouse/columns/nullable.cpp:85-87 | slicing both parts slices the rows |
| `FlatColumns.ColumnNullable.GetItem` | lib/clickhouse-cpp/clickhouse/columns/nullable.cpp:102-107 | the row, NULL if its flag is set |
| `WireFormat.VarintRoundTrip` | lib/clickhouse-cpp/clickhouse/base/wire_format.cpp:50-90 | every 64-bit value takes 1 to 10 bytes and is read back, the input after it untouched |
| `WireFormat.WriteVarint64` | lib/clickhouse-cpp/clickhouse/base/wire_format.cpp:71-90 | the loop writes the encoding |
| `WireFormat.ReadVarint64` | lib/clickhouse-cpp/clickhouse/base/wire_format.cpp:50-69 | the loop reads the encoding, at most ten bytes |
| `KnownAnswers.Varints` | lib/clickhouse-cpp/clickhouse/base/wire_format.cpp:71-90 | lengths around one byte and the example of the DWARF standard, byte for byte |
| `KnownAnswers.FixedWidths` | lib/clickhouse-cpp/clickhouse/base/wire_format.h:36-64 | fixed-width numbers are little endian |
| `WireFormat.StringRoundTrip` | lib/clickhouse-cpp/clickhouse/base/wire_format.h:40-49 | a string that was written is read back, the input after it untouched, if and only if its length is at most 0x00FFFFFF; otherwise the read fails |
| `WireFormat.SixteenMebibytesAreRefused` | lib/clickhouse-cpp/clickhouse/base/wire_format.cpp:91-102 | the first length that is refused although all bytes are there; the String column reads it |
| `WireFormat.CountedRoundTrip` | lib/clickhouse-cpp/clickhouse/columns/string.cpp:261-301 | the values of a String column are read back at any length |
| `QuotedString.WriteQuotedString` | lib/clickhouse-cpp/clickhouse/base/wire_format.cpp:112-165 | the length declared before the text is built is the length of the text written |
| `QuotedString.WriteText` | lib/clickhouse-cpp/clickhouse/base/wire_format.cpp:134-164 | copying stretches between escapes gives the character-by-character coding |
| `QuotedString.CodedIsInert` | lib/clickhouse-cpp/clickhouse/base/wire_format.cpp:134-164 | no quote, NUL, backspace, tab or line feed is left in the coded text |
| `QuotedString.CodedDenotes` | lib/clickhouse-cpp/clickhouse/base/wire_format.cpp:134-164 | the coded text, read as a quoted string and that as escaped text, is the value |
| `QuotedString.QuotedStringRoundTrip` | lib/clickhouse-cpp/clickhouse/base/wire_format.cpp:112-165 | different values differ on the wire; the counted text is read back whole, by a reader with the limit 0x00FFFFFF if and only if it is not longer |
| `KnownAnswers.Parameter` | lib/clickhouse-cpp/clickhouse/base/wire_format.cpp:112-165 | a quote and a tab in a query parameter, byte for byte |
| `OutputStreams.ArrayOutput.Write` | lib/clickhouse-cpp/clickhouse/base/output.cpp:9-44 | copies as much as fits behind what was written, and nothing else changes |
| `OutputStreams.BufferOutput.Write` | lib/clickhouse-cpp/clickhouse/base/output.cpp:47-66 | grows the vector as needed and overwrites from the position on |
| `OutputStreams.BufferedOutput.Flush` | lib/clickhouse-cpp/clickhouse/base/output.cpp:82-96 | exactly when it throws, what has been delivered then and what waits; otherwise everything is delivered in order through partial writes |
| `OutputStreams.BufferedOutput.Write` | lib/clickhouse-cpp/clickhouse/base/output.cpp:107-117 | the write of the buffer as a value: accepted bytes, exception and state, about which the laws below are |
| `OutputStreams.WriteAll` | lib/clickhouse-cpp/clickhouse/base/wire_format.cpp:31-48 | the repeated write as a value: all accepted, too few, or an exception, and the state it leaves |
| `BufferedWrites.DrainExactly` | lib/clickhouse-cpp/clickhouse/base/output.cpp:84-91 | the loop throws exactly if the socket throws before it has taken all; says how many bytes have gone out |
| `BufferedWrites.FlushConserves` | lib/clickhouse-cpp/clickhouse/base/output.cpp:82-96 | received and waiting bytes are together what they were if and only if the flush does not throw or the socket took nothing before it threw |
| `BufferedWrites.FlushedTwice` | lib/clickhouse-cpp/clickhouse/base/output.cpp:82-96 | after a flush that threw, one that succeeds delivers the bytes that had gone out a second time |
| `BufferedWrites.OneByteTwice` | lib/clickhouse-cpp/clickhouse/base/output.cpp:82-96 | a socket that takes the one waiting byte and throws receives it twice |
| `BufferedWrites.WriteExactly` | lib/clickhouse-cpp/clickhouse/base/output.cpp:107-117 | a write adds the accepted bytes, in order; exactly how many stray bytes an exception lets through |
| `BufferedWrites.RunConserves` | lib/clickhouse-cpp/clickhouse/base/output.cpp:82-117 | after any run of writes and flushes with any exceptions, the stream is what was accepted if and only if no step let bytes through before it threw |
| `BufferedWrites.WriteAllExactly` | lib/clickhouse-cpp/clickhouse/base/wire_format.cpp:31-48 | everything is taken in order, or failure is reported with how much was, and the other end has the beginning |
| `BufferedWrites.SendDelivers` | lib/clickhouse-cpp/clickhouse/base/output.cpp:82-117 | a message that is sent is received behind all that was taken before; of one that fails, the beginning |
| `BufferedWrites.NextMessageFollows` | lib/clickhouse-cpp/clickhouse/base/output.cpp:82-117 | after a flush that threw, the next message follows a repetition of the bytes that had gone out |
| `HealthyWrites.SendSucceeds` | lib/clickhouse-cpp/clickhouse/base/output.cpp:82-117 | a message is sent if the socket takes bytes of every write and lasts for more writes than there are bytes |
| `HealthyWrites.PacketIsSent` | lib/clickhouse-cpp/clickhouse/client.cpp:1212-1221 | a data packet, compressed or not, fails only when the socket is used up |
| `InputStreams.BufferedInput.Read` | lib/clickhouse-cpp/clickhouse/base/input.cpp:82-94 | exactly as many of the next bytes as are asked for and wait, or as the source gives at once; what is pending afterwards is the rest, even if the source throws |
| `InputStreams.BufferedInput.Next` | lib/clickhouse-cpp/clickhouse/base/input.cpp:72-80 | the read through the buffer as a value: bytes, exception and state, about which the laws below are |
| `InputStreams.BufferedInput.Skip` | lib/clickhouse-cpp/clickhouse/base/input.cpp:8-21 | skips the bytes asked for exactly if they are available, and otherwise those that are |
| `InputStreams.BufferedInput.ReadAll` | lib/clickhouse-cpp/clickhouse/base/wire_format.cpp:18-29 | reads the bytes asked for exactly if they are available, and otherwise those that are |
| `BufferedReads.ReadExactly` | lib/clickhouse-cpp/clickhouse/base/input.cpp:82-94 | how many bytes a read gives of a buffer that is filled or empty, and when it throws; none is lost, skipped or repeated |
| `BufferedReads.ReadAllExactly` | lib/clickhouse-cpp/clickhouse/base/wire_format.cpp:18-29 | from the reactions of the source, the bytes pending and the length asked for: exactly when reading succeeds, how many bytes it gives otherwise, and whether it throws |
| `BufferedReads.SkipExactly` | lib/clickhouse-cpp/clickhouse/base/input.cpp:8-21 | the same for skipping, where the length of the buffer matters too |
| `InputStreams.ArrayInput.Next` | lib/clickhouse-cpp/clickhouse/base/input.cpp:48-56 | takes the next bytes of the window |
| `CompressedStreams.ChunksPartition` | lib/clickhouse-cpp/clickhouse/base/compressed.cpp:149-166 | chunks have 1 to the maximum number of bytes and concatenate to the data |
| `CompressedStreams.FrameRoundTrip` | lib/clickhouse-cpp/clickhouse/base/compressed.cpp:57-137 | a frame is read back as its chunk, the input after it untouched |
| `CompressedStreams.CompressedRoundTrip` | lib/clickhouse-cpp/clickhouse/base/compressed.cpp:47-229 | whatever is written is read back, for any maximum chunk size, given a codec that inverts itself and sizes within the limits |
| `CompressedStreams.AcceptedFrameIsSealed` | lib/clickhouse-cpp/clickhouse/base/compressed.cpp:57-137 | an accepted frame begins with the hash of exactly its header and payload, its sizes are those of body and data |
| `CompressedStreams.BadFrameIsPassed` | lib/clickhouse-cpp/clickhouse/base/compressed.cpp:93-106 | a frame with the wrong hash throws, and is consumed to its end |
| `FrameLayout.FrameBytes` | lib/clickhouse-cpp/clickhouse/base/compressed.cpp:172-229 | where hash, method, sizes and payload stand, and which algorithm a method names |
| `FrameLayout.HeaderDecides` | lib/clickhouse-cpp/clickhouse/base/compressed.cpp:72-88 | exactly which headers are refused, and what is left of the input |
| `FrameLayout.PayloadDecides` | lib/clickhouse-cpp/clickhouse/base/compressed.cpp:100-134 | a payload with the right hash is decompressed by the algorithm of its method into as many bytes as the header says |
| `FrameLayout.CutFrameEnds` | lib/clickhouse-cpp/clickhouse/base/compressed.cpp:57-106 | a frame that is cut anywhere is the end of the input |
| `CompressedStreams.FlowingIsPlain` | lib/clickhouse-cpp/clickhouse/base/wire_format.cpp:18-29 | repeated reads reach all plain bytes, unless a frame without data is in their way |
| `CompressedStreams.FramesFlow` | lib/clickhouse-cpp/clickhouse/base/compressed.cpp:47-55 | the frames of written chunks are read to their last byte, and then the input is at its end |
| `CompressedStreams.PlainIsGoodPrefix` | lib/clickhouse-cpp/clickhouse/base/compressed.cpp:47-137 | the plain bytes are the data of the frames before the first bad one |
| `CompressedStreams.CompressedOutput.Write` | lib/clickhouse-cpp/clickhouse/base/compressed.cpp:149-166 | one frame per chunk: the state it leaves after any exception, as the value about which the laws below are |
| `CompressedStreams.CompressedOutput.Compress` | lib/clickhouse-cpp/clickhouse/base/compressed.cpp:172-229 | one frame and a flush: the state it leaves after any exception of the codec or the destination, likewise |
| `CompressedStreams.ChunkExactly` | lib/clickhouse-cpp/clickhouse/base/compressed.cpp:172-229 | a chunk that is written is received as its frame, hash first and sizes filled in; nothing if the codec fails, a beginning if the destination throws |
| `CompressedStreams.FramesExactly` | lib/clickhouse-cpp/clickhouse/base/compressed.cpp:149-166 | the frames of the chunks in order, up to the first failure; says what the destination has then |
| `BlockWrites.BlockIsSealed` | lib/clickhouse-cpp/clickhouse/client.cpp:482-491 | through the upper buffer, whatever the pieces: a block that is sent is frames of exactly its bytes; of one that fails the other end has the beginning of such frames |
| `BlockWrites.SealedReadsBack` | lib/clickhouse-cpp/clickhouse/base/compressed.cpp:47-229 | such frames are read back as the bytes |
| `BlockWrites.PacketArrives` | lib/clickhouse-cpp/clickhouse/client.cpp:1212-1221 | a data packet that is sent, compressed or not, is received whole behind all that was taken before: header, and a block that reads back; of one that fails, the beginning |
| `CompressedStreams.CompressedInput.Next` | lib/clickhouse-cpp/clickhouse/base/compressed.cpp:47-55 | as many bytes of the current frame, or else of the next, as are asked for; fails exactly if it has to open a frame that cannot be opened, and stands behind what it has read of it |
| `CompressedStreams.CompressedInput.Decompress` | lib/clickhouse-cpp/clickhouse/base/compressed.cpp:57-137 | opens the next frame without losing plain bytes; a failure is an exception or the end, as the frame says, and consumes what was read of it |
| `CompressedStreams.CompressedInput.ReadAll` | lib/clickhouse-cpp/clickhouse/base/wire_format.cpp:18-29 | reads the bytes asked for exactly if so many flow, and otherwise those that do, with the outcome of the frame that stopped them |
| `Calendar.CalendarBijection` | typesToPhp.cpp:2433-2452 | day 0 is 1 January 1970, every day number is a valid date, dates and day numbers determine each other |
| `Calendar.Successor` | typesToPhp.cpp:2440-2452 | the date of the next day number is the next date under the Gregorian leap rule |
| `Calendar.DateAndBack` | typesToPhp.cpp:496-512 | the date of the day number of any valid date is that date |
| `Calendar.DaysAndBack` | typesToPhp.cpp:2440-2452 | the day number of the date of any day number is that number |
| `Calendar.NextDayNumber` | typesToPhp.cpp:496-512 | the next date has the next day number |
| `DateTime64.EpochRoundTrip` | typesToPhp.cpp:2454-2469 | the text of an epoch second parses to it if and only if its year is 0 to 9999 |
| `DateTime64.SplitTicks` | typesToPhp.cpp:2794-2797 | truncating division corrected downwards is floor division, the fraction in range |
| `DateTime64.GuardIsSafe` | typesToPhp.cpp:917-930 | what the guard lets through fits 64 bits; it rejects fitting values only below the truncated minimum |
| `DateTime64.CellRoundTrip` | typesToPhp.cpp:2788-2812 | a raw value is read and inserted unchanged if and only if its year has four digits and its whole second passes the lower guard |
| `DateTime64.InsertFits` | typesToPhp.cpp:917-930 | whatever text is inserted, the stored value is a 64-bit integer |
| `DateTime64.ReadFraction` | typesToPhp.cpp:519-557 | the digit loops compute the fraction scaled to the precision, or refuse the text, as the laws below say |
| `DateTime64.FractionIsPadded` | typesToPhp.cpp:540-550 | a fraction shorter than the precision is worth what it is with zeros behind it |
| `DateTime64.FullFraction` | typesToPhp.cpp:519-557 | a fraction of full length is worth its number |
| `DateTime64.NoFraction` | typesToPhp.cpp:917-930 | a text without a dot is worth what it is with a fraction of zeros |
| `DateTime64.FractionDecides` | typesToPhp.cpp:519-557 | a fraction is accepted if and only if it has digits, only digits, and no more than the precision |
| `DateTime64.FieldsDecide` | typesToPhp.cpp:455-512 | a date and time is accepted, and is that second, if and only if its fields are a date of the calendar and a time of the day |
| `DateTime64.OnlyStamps` | typesToPhp.cpp:455-512 | no other texts are accepted than nineteen characters of digits and marks |
| `DateTime64.YearSpells` | typesToPhp.cpp:2454-2469 | a year is printed as its number with at least four characters |
| `DateTime64.YearIsCast` | typesToPhp.cpp:2440-2452 | the year that is printed is the year cast to 32 bits |
| `Int128Text.FormatUint128` | typesToPhp.cpp:61-73 | the digits of the value, at most 39 |
| `Int128Text.ParseUint128` | typesToPhp.cpp:87-108 | accepts exactly 1 to 39 digits with a value below 2^128, and returns it; says which error otherwise |
| `Int128Text.FormatInt128` | typesToPhp.cpp:75-85 | sign and digits of the whole signed range, the minimum included |
| `Int128Text.ParseInt128` | typesToPhp.cpp:2101-2137 | accepts exactly signed digit strings whose value is a 128-bit integer, and returns it |
| `Int128Text.UnsignedRoundTrip` | typesToPhp.cpp:61-108 | formatted values are accepted and parsed to themselves |
| `Int128Text.SignedRoundTrip` | typesToPhp.cpp:2101-2137 | the same on the whole signed range |
| `DecimalText.ReadCell` | typesToPhp.cpp:2657-2682 | the text built in place in 64 bytes is sign, integer part, and exactly scale digits after the dot |
| `DecimalText.ScaleDigits` | typesToPhp.cpp:2666-2680 | padding and moving inside the buffer puts the dot before the last scale digits |
| `DecimalText.DigitsSplit` | typesToPhp.cpp:2668-2680 | padded digits are those of the integer part followed by the last scale digits |
| `DecimalText.OverflowExact` | lib/clickhouse-cpp/clickhouse/columns/decimal.cpp:41-95 | both overflow tests hold exactly if the result leaves the 128-bit range |
| `KnownAnswers.Limits` | lib/clickhouse-cpp/clickhouse/columns/decimal.cpp:102-130 | the limits of 128 and 64 bits, and the cut at the limits of each decimal store |
| `DecimalText.ScanDecimal` | lib/clickhouse-cpp/clickhouse/columns/decimal.cpp:139-184 | one pass finds the value of the digits that count and the zeros missing up to the scale, or fails |
| `DecimalText.ShiftLeft` | lib/clickhouse-cpp/clickhouse/columns/decimal.cpp:186-191 | appends the zeros exactly if the result fits |
| `DecimalText.ColumnDecimal.Append` | lib/clickhouse-cpp/clickhouse/columns/decimal.cpp:139-194 | stores the number the text denotes to the parser, or nothing |
| `DecimalInsert.ValidateDecimalText` | typesToPhp.cpp:1523-1555 | refuses exactly the plain texts with too many fractional digits or an integer part of 10^(precision - scale) or more |
| `DecimalInsert.SignificantDigits` | typesToPhp.cpp:1541-1553 | without leading zeros a number has at most n digits if and only if it is below 10^n |
| `DecimalInsert.StoreKeeps` | lib/clickhouse-cpp/clickhouse/columns/decimal.cpp:102-137 | a value below 10^precision loses no bits in the store chosen from the precision |
| `DecimalInsert.DottedIsRead` | lib/clickhouse-cpp/clickhouse/columns/decimal.cpp:139-194 | any text with a dot, plain or not, is parsed as the digits before the dot and those after it up to the scale, whatever follows |
| `DecimalInsert.UndottedIsRead` | lib/clickhouse-cpp/clickhouse/columns/decimal.cpp:139-194 | any text without a dot is parsed as it stands, unscaled |
| `DecimalInsert.AcceptedFitsPrecision` | typesToPhp.cpp:1523-1555 | an accepted and parsed text fits the precision if and only if its integer part is below 10^(precision - scale) |
| `DecimalInsert.StoredButNotPlain` | typesToPhp.cpp:1525-1541 | the parsed texts that the check does not look at: nothing, a lone dot, or a byte that is no digit behind the digits that are read |
| `DecimalInsert.ExactIfPlainAndDotted` | lib/clickhouse-cpp/clickhouse/columns/decimal.cpp:151-180 | an accepted and parsed text is stored as the number it denotes if and only if it is plain and has a dot, the scale is 0 or the number is 0 |
| `DecimalInsert.JunkTurnsCheckOff` | lib/clickhouse-cpp/clickhouse/columns/decimal.cpp:151-161 | scale digits followed by a byte that is no digit: accepted whatever the integer part, and stored if it fits 128 bits |
| `DecimalInsert.TenBillionIsCut` | lib/clickhouse-cpp/clickhouse/columns/decimal.cpp:102-137 | 10000000000.00x at Decimal(9, 2) is accepted, parsed as 10^12 and loses bits |
| `DecimalInsert.ExponentIsDropped` | typesToPhp.cpp:2182-2188 | a decimal number with an exponent is accepted, and stored as its mantissa if that has scale digits and fits, else refused; the exponent is never looked at |
| `DecimalInsert.FloatLosesExponent` | typesToPhp.cpp:2182-2188 | 1.0E+25 at Decimal(38, 1) is stored as 1.0 |
| `DecimalInsert.NarrowKeepsRange` | lib/clickhouse-cpp/clickhouse/columns/decimal.cpp:102-137 | a value survives its store if and only if it lies in the range of the store |
| `DecimalInsert.InsertDecimal` | typesToPhp.cpp:2165-2193 | check and append together: which texts are stored, as what, when unchanged, when as the number they denote; a refused one stores nothing |
| `DecimalInsert.CellRoundTrip` | typesToPhp.cpp:2657-2682 | the text of any value below 10^precision passes the check and is stored as that value |
| `NativeGuarantees.BeginInsertKeeps` | lib/clickhouse-cpp/clickhouse/client.cpp:566-597 | a start that succeeds is an open insert on the wire; one that fails leaves the client inserting |
| `NativeGuarantees.SendInsertBlockKeeps` | lib/clickhouse-cpp/clickhouse/client.cpp:599-605 | success records one block; failure spoils the insert and leaves the client inserting; not inserting is refused |
| `NativeGuarantees.EndInsertKeeps` | lib/clickhouse-cpp/clickhouse/client.cpp:607-627 | no step at all unless inserting; else one terminator, only if the insert may be closed; success only on confirmation, and failure leaves the client inserting |
| `NativeGuarantees.EndInsertConfirmed` | lib/clickhouse-cpp/clickhouse/client.cpp:607-627 | with exceptions on, closing succeeds if and only if the terminator is sent and the last packet type read is EndOfStream or Log |
| `NativeGuarantees.CutConnectionSucceedsAfterLog` | lib/clickhouse-cpp/clickhouse/client.cpp:614-626 | a connection cut before the end of the stream counts as success if and only if the last packet was a log |
| `NativeGuarantees.DestroyKeeps` | lib/clickhouse-cpp/clickhouse/client.cpp:369-398 | the destructor writes its terminator exactly if the client is inserting, and that terminator is allowed |
| `NativeGuarantees.QueryKeeps` | lib/clickhouse-cpp/clickhouse/client.cpp:400-480 | a query leaves an idle client idle however it ends, on the same connection; a busy client refuses it |
| `NativeGuarantees.PingKeeps` | lib/clickhouse-cpp/clickhouse/client.cpp:629-643 | a ping changes neither state nor connection; a busy client refuses it |
| `NativeGuarantees.ReconnectKeeps` | lib/clickhouse-cpp/clickhouse/client.cpp:645-663 | the client is idle however a reconnect ends; success gives a fresh socket |
| `Verdicts.HandshakeDecides` | lib/clickhouse-cpp/clickhouse/client.cpp:730-743 | a handshake succeeds if and only if the hello goes out and the server says hello; an exception packet is a server exception |
| `Verdicts.ReconnectDecides` | lib/clickhouse-cpp/clickhouse/client.cpp:645-663 | the same for opening the socket and the handshake on it, with the exception otherwise and the replies used up |
| `Verdicts.RotateDecides` | lib/clickhouse-cpp/clickhouse/client.cpp:665-692 | a rotation succeeds if and only if some endpoint answers before one fails for good, and gives up if and only if all refuse |
| `Verdicts.RotateConnects` | lib/clickhouse-cpp/clickhouse/client.cpp:665-692 | it is then connected to the endpoint that answered first, in ring order |
| `Verdicts.NewClientConnects` | lib/clickhouse-cpp/clickhouse/client.cpp:694-719 | a new client is connected, in its first round, to the endpoint that answers first, counted from the first |
| `Verdicts.CreateConnectionDecides` | lib/clickhouse-cpp/clickhouse/client.cpp:694-719 | connecting succeeds if and only if one of the attempts of all rounds is answered |
| `Verdicts.ConnectingDecides` | clickhouse.cpp:4286-4326 | the same for the construction of the object and the switch of its database |
| `Verdicts.ReapplyDecides` | clickhouse.cpp:1324-1349 | a recovery succeeds if and only if one of its attempts is answered; with a database to select, only then |
| `Verdicts.ReceiveDecides` | lib/clickhouse-cpp/clickhouse/client.cpp:745-900 | which packets a loop passes, which end it, and which throw what |
| `Verdicts.NextBlockDecides` | lib/clickhouse-cpp/clickhouse/client.cpp:422-452 | the block that is returned is the first with columns; without one the loop ends as its last packet says |
| `Verdicts.QueryDecides` | lib/clickhouse-cpp/clickhouse/client.cpp:400-459 | a query ends as the first packet says that its loop does not pass |
| `Verdicts.PingDecides` | lib/clickhouse-cpp/clickhouse/client.cpp:629-643 | a ping succeeds if and only if it goes out and a pong comes back |
| `Verdicts.BeginInsertDecides` | lib/clickhouse-cpp/clickhouse/client.cpp:566-597 | an insert starts if and only if the query goes out and a data packet comes before the stream ends or throws |
| `Verdicts.EndInsertDecides` | lib/clickhouse-cpp/clickhouse/client.cpp:607-627 | an insert is closed if and only if the terminator goes out and the server confirms it, said on the replies |
| `SessionVerdicts.OperationReports` | clickhouse.cpp:1828-1844 | which calls are refused, with what unchanged; every other call reports its first failure, whatever its recovery does |
| `SessionVerdicts.ClientChanges` | clickhouse.cpp:4286-4326 | the name of the database and the existence of a client change with a new client only, which only construction and switch install |
| `SessionVerdicts.InsertIsHeld` | clickhouse.cpp:3921-4140 | after which calls the object holds an open insert, from the state before |
| `NativeGuarantees.ResetConnectionEndpointRotates` | lib/clickhouse-cpp/clickhouse/client.cpp:665-692 | tries each endpoint at most once in ring order, fails retriably only after all, and on success the current endpoint is the connected one |
| `NativeGuarantees.ResetConnectionKeeps` | lib/clickhouse-cpp/clickhouse/client.cpp:645-692 | however a reset ends, the client is idle; success means a fresh socket to the current endpoint |
| `NativeGuarantees.CreateConnectionKeeps` | lib/clickhouse-cpp/clickhouse/client.cpp:694-719 | at most max(1, send_retries) times n attempts, exactly that many on retriable failure |
| `NativeGuarantees.RoundIsFair` | lib/clickhouse-cpp/clickhouse/base/endpoints_iterator.cpp:12-16 | n steps of the iterator visit every endpoint once |
| `NativeClient.Client.BeginInsert` | lib/clickhouse-cpp/clickhouse/client.cpp:566-597 | the packet loop ends as the step BeginInsert whose guarantees are above: at the first data packet, or with an exception |
| `NativeClient.Client.SendInsertBlock` | lib/clickhouse-cpp/clickhouse/client.cpp:599-605 | sends and records one block, or records its failure, exactly as the step does |
| `NativeClient.Client.EndInsert` | lib/clickhouse-cpp/clickhouse/client.cpp:607-627 | the packet loop, remembering the last packet type it saw, ends idle or with the exception of the step EndInsert |
| `NativeClient.Client.NextBlock` | lib/clickhouse-cpp/clickhouse/client.cpp:422-452 | skips everything up to the first block with columns; any end or exception leaves the client idle |
| `NativeClient.Client.ExecuteQuery` | lib/clickhouse-cpp/clickhouse/client.cpp:400-459 | drains all blocks of a query, exactly as the step does |
| `NativeClient.Client.SelectWithExternalData` | lib/clickhouse-cpp/clickhouse/client.cpp:462-480 | as a query with external tables; a failure to send them leaves the client idle |
| `NativeClient.Client.Reconnect` | lib/clickhouse-cpp/clickhouse/client.cpp:645-663 | the state is idle before the connect, the streams are swapped before the handshake |
| `NativeClient.Client.Handshake` | lib/clickhouse-cpp/clickhouse/client.cpp:730-743 | succeeds only on the hello packet; says which exception otherwise |
| `NativeClient.Client.ResetConnectionEndpoint` | lib/clickhouse-cpp/clickhouse/client.cpp:665-692 | the loop over the endpoints tries them as the rotation does, whose fairness is proved above |
| `NativeClient.Client.CreateConnection` | lib/clickhouse-cpp/clickhouse/client.cpp:694-719 | the loop repeats rotations up to the number of attempts |
| `NativeClient.Client.Destroy` | lib/clickhouse-cpp/clickhouse/client.cpp:369-398 | finishes an open insert and swallows any exception |
| `ClickHouseSession.ReapplyKeeps` | clickhouse.cpp:1324-1349 | a recovery of any operation ends the insert in the client before it connects, tries at least one endpoint, and on success leaves a fresh socket to the current endpoint with the database selected again |
| `SessionGuarantees.InsertKeeps` | clickhouse.cpp:3189-3300 | keeps the invariant; success is confirmed and leaves exactly one begun, sent and closed insert on one socket; any failure tries a reconnect, except a failed conversion whose empty insert is closed on the old one |
| `SessionGuarantees.InsertFromStreamKeeps` | clickhouse.cpp:3777-3905 | keeps the invariant; success is confirmed and leaves all blocks between one start and one end on one socket; a failure reconnects unless no block was sent and the insert could be closed |
| `SessionGuarantees.WriteStartKeeps` | clickhouse.cpp:3921-3985 | keeps the invariant, with a failure at any point of installing the insert state; any failure tries a reconnect |
| `SessionGuarantees.WriteKeeps` | clickhouse.cpp:3992-4088 | keeps the invariant; success sends exactly one block on the insert's socket; after a failure the insert state is dropped only if the insert was closed or the recovery succeeded |
| `SessionGuarantees.WriteEndKeeps` | clickhouse.cpp:4093-4140 | drops the insert state however it ends; sends the terminator exactly if the client is inserting, and then succeeds only on confirmation; any failure tries a reconnect |
| `SessionGuarantees.RunQueryKeeps` | clickhouse.cpp:2101-2199 | keeps the invariant; success and a server exception keep the connection, any other exception tries a new one |
| `KeptConnections.KeptOutOfStep` | clickhouse.cpp:2134-2173 | how a query ends, from the packet at which its loop stops; the connection is kept out of step if and only if that packet passes for the end or for a server exception |
| `SessionGuarantees.PingKeepsSession` | clickhouse.cpp:2206-2225 | a ping keeps the invariant, the connection and the insert state |
| `SessionGuarantees.CreateKeeps` | clickhouse.cpp:1210-1217 | keeps the invariant; a second construction changes nothing, a failed one leaves no client |
| `SessionGuarantees.SetDatabaseKeeps` | clickhouse.cpp:4286-4326 | connects before it swaps and then has the new database's name; the old client's destructor sends nothing; a failed switch keeps the old client and its database |
| `SessionGuarantees.ResetKeeps` | clickhouse.cpp:4437-4450 | leaves no insert in either layer, tries a reconnect, and on success is connected afresh |
| `SessionGuarantees.OperationKeeps` | clickhouse.cpp:1324-1372 | every operation, whatever it is given and whatever fails, keeps: never selecting, inserting only if the object knows and the insert is open, every terminator allowed |
| `SessionGuarantees.RunKeeps` | clickhouse.cpp:1828-1844 | the same after every operation of every run on every network |
| `SessionGuarantees.FreeKeeps` | clickhouse.cpp:95-121 | the destructor after any run closes the insert exactly if the client is inserting, and that insert may be closed |
| `Reentrancy.ReentrantCallChangesNothing` | clickhouse.cpp:1828-1844 | a call made during another is refused and changes nothing |
| `Reentrancy.ReadPacketsIsDrain` | lib/clickhouse-cpp/clickhouse/client.cpp:400-459 | the packet loop of a query with calls after every packet, the last included, ends as the loop without them |
| `Reentrancy.StartUnaffected` | lib/clickhouse-cpp/clickhouse/client.cpp:566-597 | the start of an insert, with calls before it and after every packet, is the start without them |
| `Reentrancy.QueryUnaffected` | clickhouse.cpp:2101-2199 | a query whose callbacks call the object ends as it would alone; every nested call is refused |
| `Reentrancy.InsertFromStreamUnaffected` | clickhouse.cpp:3748-3905 | the same for an import whose callbacks run at the start and whose stream calls the object before every block |
| `Reentrancy.InsertUnaffected` | clickhouse.cpp:3189-3300 | the same for a one-shot insert: preparation, start and conversion |
| `Reentrancy.WriteStartUnaffected` | clickhouse.cpp:3921-3985 | the same for the start of a streaming insert, recovery included |
| `Reentrancy.OperationUnaffected` | clickhouse.cpp:1828-1844 | the same for every operation, in any state |
| `Reentrancy.RunUnaffected` | clickhouse.cpp:1828-1844 | every run with nested calls ends in the state of the run without them |
| `BrokenInserts.RunFinalizesOnlyReused` | clickhouse.cpp:3275-3295 | in every run up to the destructor, a socket with a failed block is finalized if and only if some step, or the destructor, closes an insert while the socket in use is dirty; on the wire, exactly if an insert begun on such a socket is closed |
| `BrokenInserts.FinalizedOnlyIfReused` | lib/clickhouse-cpp/clickhouse/client.cpp:599-663 | the same for any allowed history of the wire |
| `BrokenInserts.RecoveredSocketIsClean` | clickhouse.cpp:1324-1372 | after a recovery that succeeds no block has failed on the socket in use |
| `BrokenInserts.DirtyAfterOperation` | clickhouse.cpp:1324-1372 | the socket in use is dirty after an operation only if its recovery has thrown or, without a recovery, if it was dirty before |
| `BrokenInserts.DirtyOnlyAfterFailedRecovery` | clickhouse.cpp:1324-1372 | after any run the socket in use is dirty only if the last recovery of the run has thrown |
| `BrokenInserts.RecoveredRunsNeverFinalize` | clickhouse.cpp:3275-3295 | a run none of whose recoveries throws never finalizes a socket on which a block has failed, the destructor included |
| `InsertClosings.OperationTally` | clickhouse.cpp:3777-3905 | from the state before any operation: exactly how many inserts it closes, how many for a second time, and how many on a socket on which a block has failed |
| `InsertClosings.FreeTally` | clickhouse.cpp:95-121 | the same for the destructor, which never closes an insert for a second time |
| `InsertClosings.RunClosesAgain` | clickhouse.cpp:3879-3905 | no insert of a run, the destructor included, is closed twice if and only if no step is an import of no rows whose close throws |
| `FailingRuns.ReuseHappens` | clickhouse.cpp:4060-4140 | a run in which the socket is reused and finalized, and writeEnd succeeds without a terminator |
| `FailingRuns.EmptyImportClosesTwice` | clickhouse.cpp:3879-3900 | on a network that fails once at the close: two terminators for one insert, on one socket, and the failure is reported |
| `ClickHouseObject.ClickHouse.Reapply` | clickhouse.cpp:1324-1372 | reconnects, on another endpoint after a retriable exception, and selects a named database again, exactly as the recovery proved above |
| `ClickHouseObject.ClickHouse.RunQuery` | clickhouse.cpp:2101-2199 | guard, refusal while an insert is open, query, recovery: the whole new state of both layers |
| `ClickHouseObject.ClickHouse.Ping` | clickhouse.cpp:2206-2225 | guard, refusal while an insert is open, ping: the whole new state |
| `ClickHouseObject.ClickHouse.Reset` | clickhouse.cpp:4437-4450 | guard and recovery with the insert state dropped first |
| `ClickHouseObject.ClickHouse.Insert` | clickhouse.cpp:3189-3300 | the whole new state of both layers for every failure point of a one-shot insert |
| `ClickHouseObject.ClickHouse.InsertFromStream` | clickhouse.cpp:3777-3905 | the whole new state of both layers for every failure point of a stream import; the flags for dirty and sent blocks choose the recovery |
| `ClickHouseObject.ClickHouse.WriteStart` | clickhouse.cpp:3921-3985 | the whole new state of both layers, the insert state installed only after the start |
| `ClickHouseObject.ClickHouse.Write` | clickhouse.cpp:3992-4088 | the whole new state of both layers, the guard released before the recovery |
| `ClickHouseObject.ClickHouse.WriteEnd` | clickhouse.cpp:4093-4140 | the whole new state of both layers, the insert state dropped before the reconnect |
| `ClickHouseObject.ClickHouse.SetDatabase` | clickhouse.cpp:4286-4326 | a new client is connected before the old one is destroyed; a failure keeps the old one |
| `ClickHouseObject.ClickHouse.Create` | clickhouse.cpp:1210-1217 | a second construction is refused, a failed one leaves no client |
| `ClickHouseObject.ClickHouse.Free` | clickhouse.cpp:95-121 | drops the insert state and destroys the client |
| `SqlText.SqlStringLiteral` | metadata.cpp:39-61 | the loop writes the literal of any byte string, which redaction and the laws below are about |
| `SqlText.LiteralDenotes` | metadata.cpp:39-61 | reading a literal gives the string it is made of, whatever bytes that has |
| `SqlText.SqlQuotedIdentifier` | metadata.cpp:63-76 | the loop writes the quoted identifier of any byte string |
| `SqlText.QuotedDenotes` | metadata.cpp:63-76 | reading a quoted identifier gives the name it is made of |
| `KnownAnswers.Sql` | metadata.cpp:39-76 | a quote in a literal and a backquote in an identifier, byte for byte |
| `KnownAnswers.Redacted` | query_log.cpp:58-86 | a statement with a literal and its redacted text |
| `SqlText.InnerDenotes` | metadata.cpp:95-118 | what the parser takes of a quoted segment is what its text denotes |
| `SqlText.OneCharacter` | metadata.cpp:124-140 | ASCII letters and the underscore begin a bare word, digits may follow, and a dot where it is allowed |
| `SqlText.AfterWord` | metadata.cpp:124-155 | why a text that begins with a bare word is refused |
| `SqlText.Refusals` | metadata.cpp:81-130 | the other refusals, each with its reason |
| `SqlText.RedactSqlLiterals` | query_log.cpp:58-86 | the index loops compute the redaction |
| `SqlText.RedactIdempotent` | query_log.cpp:58-86 | redacting redacted text changes nothing |
| `SqlText.RedactAbsorbsLiteral` | query_log.cpp:58-86 | after quote-free text a literal of any content becomes one placeholder and the rest is redacted on its own, if and only if no quote follows |
| `SqlText.RedactHidesContent` | query_log.cpp:58-86 | statements that differ in a literal are redacted to the same text, whatever follows |
| `SqlText.ParseIdentifier` | metadata.cpp:81-158 | the cursor loops compute what is emitted, or which error is thrown |
| `SqlText.QuotedIsAccepted` | metadata.cpp:63-158 | a quoted identifier is accepted, and emitted unchanged, if and only if it is neither empty nor holds a control byte |
| `SqlText.OutputReparses` | metadata.cpp:81-158 | whatever is emitted is accepted again and emitted unchanged |
| `SqlText.CanonicalIsFixed` | metadata.cpp:77-158 | the parser emits only bare words and cleanly quoted segments, at most two around a permitted dot, and exactly those texts are emitted unchanged |
| `SqlText.QueryLog.Record` | query_log.cpp:88-114 | adds one redacted entry and drops the oldest when full |
| `SqlText.LogStringKeeps` | query_log.cpp:43-54 | a text of at most 8192 bytes is kept whole, a longer one is cut and says so |
| `SqlText.LogHoldsTheLatest` | query_log.cpp:88-94 | after any number of entries the log holds exactly the most recent ones, in order |
| `SqlText.LogHidesContent` | query_log.cpp:96-106 | the entry of a statement does not depend on the content of a literal after quote-free text |

## Left out

- RetryGuard and the option ping_before_query (off by default): the first loop need not end, because a reconnect that succeeds on the last counted attempt is never counted again.
- Sockets, TLS, name resolution, timeouts and poll: a connect, send or receive succeeds, succeeds in part, or fails.
- LZ4, ZSTD and CityHash: parameters; the round trip assumes that decompression inverts compression and that sizes fit. A frame whose declared size is smaller than its header has no defined behaviour and is outcome Undefined.
- Allocation failures, except those inside LowCardinality appends and when the insert state is installed; memory-limit checks; the engine's bailout past C++ handlers.
- The order of C++ exceptions thrown while another is handled, and the log entries made during recovery.
- Bytes and integers: lengths and counters are unbounded integers; size_t wrap-around is modelled only where a cast narrows (index width, decimal store, frame sizes, years, varints).
- Zval conversion, strtoll and strtod coercions, floating point cells, geo, IP, Enum and Map-to-array cells, JSON encoding.
- tryAppendStreamCell: the direct printing of numeric cells in selectToStream; cells here are NULL or byte strings.
- The column tree of nested types is modelled on values; update in place is modelled for LowCardinality, Array, String, FixedString, Nullable and Decimal columns, not for Tuple, Map and JSON, whose methods delegate to their parts.
- Client.Insert and Client.Cancel: the extension never calls them; a stopped select cancels through its row callback.
- Appending a whole column to a LowCardinality column: it is a run of the item appends that are modelled. Swap and Reserve move or size storage only.
- LowCardinality over FixedString: append pads a value after its hash was taken; only String dictionaries are modelled.
- ColumnString.Reserve and views of unmanaged lifetime: views of foreign memory have no owner to reason about.
- Loading in place over a column that already has rows, except for String: the round trip loads into an empty column.
- The cancel request of a stopped select: its send is part of the reply that carries the block.
- sanitizeError, placeholders, settings and the metadata queries: text substitution without state.
- The server's own unescaping of bound parameters is not in this repository.
- `BlockWrites.PacketArrives`: the buffer over the compressed stream is the same function as the buffer over the socket, on values; as a class only the latter is modelled, and the former's array is not.
- Sockets throw at the end of a connection, which is a reply that fails; a closed or cut reply stands for a read that returns nothing or false. Bytes of an unread packet that are taken for packets are further replies.
- The check in the destructor of the compressed reader for plain bytes that were not read.
- Appending an array column to itself: the loop of the program has no end, because the column grows under it.
- A callback that throws, or lets the exception of a refused call pass, ends its operation like any fault of the network: it is a reply that fails, and user code in `Reentrancy` catches what it is thrown.
- `StreamImport.ExportThenImport`: assumes that every block can be sent; a failing block is covered by `StreamImport.InsertFromStream`.
- `DateTime64.FormatCell`: at precision 0 the negation of the smallest 64-bit second overflows in the program; here it does not, and the year is out of range anyway.
