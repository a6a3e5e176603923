# Signet Forge: a verified model

A Dafny model of the Parquet engine in `include/signet` and of the small algorithms it rests on. It
describes the non-commercial build on a little-endian host, writing uncompressed pages. Check it with
`dafny verify dfyconfig.toml`.

## What is modelled

**The file engine.** `FileWriter` holds the writer as a class with the fields of the source: the bytes
written, the file offset, one column writer per column, pending rows, recorded row groups, the row total
and the open flag. Its ghost history lists, for each flushed row group, the column chunks with their
values, encoding and pages. `FileFormat` says what bytes and what metadata such a history stands for, and
every method keeps the file equal to that image. `FileReader` holds the reader, which sees only bytes and
recorded offsets. `RoundTrip` and `WholeFile` join the two: closed files open, columns and rows come back,
sizes add up, recorded extents tile the file, damaged pages are refused.

**Encodings.** `PlainCodec` (column writer, column reader, batch reads), `Packing` (bit packing and
varints), `Rle`, `Delta`, `ByteStreamSplit` and `Dictionary` each prove when decoding undoes encoding.
`Encodings` puts them behind the writer's and the reader's choice of codec.

**Checksums.** `Crc32` proves the 256-entry table equal to the bitwise register and proves that damage of
up to 32 consecutive bits is always seen.

**Z-order.** `Morton` proves the magic-mask bit spreading equal to plain interleaving; `ZOrder` and
`Orders` prove the normalisations monotone, floats included, and the sort right for any number of columns.

**Data skipping.** `Statistics` tracks and merges bounds as bytes, `PageIndex` filters pages by them and
`TicksQuery` skips row groups by them; neither ever loses an answer.

**State machines.** `Metering` and `UsageState` (evaluation limits and their text file), `Calendar`,
`Arena` with `Alignment`, and `RowLineage` with `HexText`. `Csv` and `CsvImport` cover the scanner and the
import loop. `Values`, `Words`, `Bits`, `Arithmetic` and `Sorting` are shared.

Class methods are proved against functions on values; the properties are then proved of those functions,
and of histories and runs of any length. Where a law holds only in part, the theorem is an equivalence
whose right-hand side is the exact condition on the input.

## Where the code is narrower than its documentation

The model follows the code.

- INT64 delta columns: the encoder lets differences wrap, the decoder stops where a sum overflows. A
  column reads back if and only if all neighbouring differences fit 64 bits; otherwise the reader reports
  a corrupt page (`Delta.DecodeEncoded`, `Encodings.DeltaReads`, `Encodings.DeltaLost`). INT32 columns
  always do.
- Dictionaries: the writer ignores a refused `put`, so values beyond 1,048,576 entries are lost. Floats
  are keyed by numeric equality, so plus and minus zero come back as whichever came first
  (`Dictionary.ZerosRespelled`). `Dictionary.PagesRead` has the exact condition, which includes the one
  case in which a loss does not show: lost NaN values behind a first NaN of the same bits, replaced by
  the zeros that pad the last index group. For other than the five indexable types the encoding is an
  error.
- Hybrid runs: the decoder's caps (32 * 1024 * 1024 values for a packed run, 256 * 1024 * 1024 for a
  repeated one) are below what the encoder emits. `Rle.OneRun` shows a family where the encoder never
  leaves bit packing, and `Rle.OneRunAccepted` the exact size up to which it reads back
  (`Encodings.FlagsLost` is one column beyond it). The boolean reader then returns fewer values without
  an error. The encoder counts waiting groups in an `int`, so at most 2 to the 31, less one, can wait.
- DELTA on types other than integers and BYTE_STREAM_SPLIT on types other than floats store PLAIN bytes
  under the requested name; the reader then reports an unsupported encoding (`Encodings.PageReads`).
- `write_dictionary_column` does not check for pages of two gigabytes, so their 32-bit size fields wrap;
  sizes add up, extents tile and columns read back if and only if no page is that large (`SmallPages` in
  `FileFormat.BodySize`, `FileFormat.FileTiles` and `WholeFile.ClosedFileReads`). The single-page path
  does check.
- `normalize_float` and `normalize_double` put minus zero below plus zero; the numeric order is kept for
  every other pair (`ZOrder.FloatNumericOrder`, `ZOrder.DoubleNumericOrder`).
- `ColumnStatistics::merge` compares with the default type unless one is set, and `ColumnWriter` sets
  none. `Statistics.MergeExact` says for every recorded type when the merge is right,
  `Statistics.MergeUnset` what that means for 64-bit columns under the default type, and
  `Statistics.MergeNeedsType` shows a pair for which it is wrong.
- `enforce_eval_limits` inserts an identity before checking the limit, so one user or node too many locks
  out everybody from then on (`Metering.LockedOut`).
- `Arena` adds offset and size without a guard; a region can lie outside its block exactly when that sum
  wraps (`Arena.FitIsSound`, `Arena.WrappingEscapes`).
- The page index records the data page of a dictionary chunk with the size of both pages
  (`WholeFile.LocationHolds`).
- Automatic encoding looks at a distinct count that nothing in the writer sets, so it never picks a
  dictionary (`WholeFile.EncodingChosen`).
- `split_csv_line` trims quoted fields too (`Csv.SplitRendered`).
- `morton_2d` makes the second column the more significant one, `morton_nd` the first
  (`ZOrder.FastIsGeneral`).

## Model

| member | source | states |
|---|---|---|
| WholeFile.ClosedFileReads | include/signet/writer.hpp:881-1050 | Main round trip: for every history a run of the writer can record, opening the closed file succeeds and reading any column returns exactly the values written if and only if the chunk is within the reader's limits (`WithinLimits`: sizes the 32-bit header fields can hold, at most a hundred million values) and the encoding chosen loses nothing (`Lossless`, spelled out per encoding on the values) |
| WholeFile.LosslessWhen | include/signet/writer.hpp:1528-1655 | When the encoding chosen loses nothing, as a condition on the column alone: neighbouring INT64 differences that fit 64 bits, floats for stream splitting, flags whose runs the decoder admits (always up to 32 * 1024 * 1024 of them), a decoded size within the cap for PLAIN, and for dictionaries of other types than floats always up to 1,048,576 rows |
| WholeFile.EncodingChosen | include/signet/writer.hpp:1528-1575 | A column named in the options has exactly the encoding named; another has the default one; with automatic encoding no chunk is ever a dictionary, as the tracker of the writer counts no distinct values |
| WholeFile.AutomaticLossless | include/signet/writer.hpp:1528-1575 | An automatic chunk of a readable type comes back if and only if it is INT64 with neighbouring differences that fit 64 bits, BOOLEAN with runs the decoder admits, or of another type; up to 32 * 1024 * 1024 rows only INT64 can lose anything |
| WholeFile.AutomaticReads | include/signet/writer.hpp:881-1050 | Carried to the file: a column written with automatic encoding reads back from the closed file if and only if it has at most a hundred million values per chunk and meets that condition |
| WholeFile.TextColumnReads | include/signet/reader.hpp:698-760 | Read as text, column c of row group g of a closed file gives the c-th cells of the rows flushed into that group: strings unchanged, booleans as true or false, fixed-length byte arrays in hexadecimal, numbers printed anew |
| WholeFile.RowsRead | include/signet/reader.hpp:804-838 | Reading the first n row groups gives the rows flushed into them, concatenated in order, every cell respelled in that way |
| WholeFile.RowsReturn | include/signet/reader.hpp:804-838 | After closing, the reader returns all accepted rows, in the order in which they were accepted, every cell respelled; rows of strings and of booleans spelled true or false come back as they are |
| WholeFile.BooleanCells | include/signet/writer.hpp:1438-1446 | A boolean cell is stored as true if and only if it is one of the four texts true, TRUE, True and 1 |
| WholeFile.CellShown | include/signet/reader.hpp:698-760 | Printing the value a cell was stored as respells the cell: true and false for booleans, the text itself for strings |
| WholeFile.TextsShown | include/signet/writer.hpp:1427-1516 | Parsing the cells of a column and printing the values gives the cells respelled, for every printable type |
| WholeFile.ColumnsTranspose | include/signet/reader.hpp:850-882 | Projected columns are the transpose of the assembled rows, for every projection and every number of row groups whose columns read and have equal lengths |
| WholeFile.NamedTranspose | include/signet/reader.hpp:850-882 | Columns read by name: entry p is, over all rows of the file, the first column that has the p-th name, and a name that no column has is a schema mismatch |
| WholeFile.NamedReturn | include/signet/reader.hpp:850-882 | On a closed file entry p of the columns read by name is the cells of all accepted rows under the first column of that name, respelled |
| WholeFile.FooterStatsRecorded | include/signet/writer.hpp:772-791 | The minimum and maximum the writer stores in the footer are those of a tracker fed with exactly the values of the chunk, which is what the tick query needs to skip soundly |
| WholeFile.WrittenPageMatches | include/signet/writer.hpp:731-747 | A page the writer indexes is kept by every query interval that contains one of its values |
| WholeFile.LocationHolds | include/signet/writer.hpp:617-623 | The offset index names the place where the file holds the data page; the size it records is the page's own, to which dictionary chunks add their dictionary page |
| WholeFile.CountsAgree | include/signet/writer.hpp:750-842 | Every chunk records as many values as its row group has rows, and the rows of the groups add up to the rows of the file |
| RoundTrip.SchemaReturns | include/signet/reader.hpp:311-350 | The schema rebuilt from the footer has the same columns in the same order with the same types; the declared length survives for fixed-length columns |
| RoundTrip.Opens | include/signet/reader.hpp:189-363 | A written file passes every check of the opening code, and the footer found is the one written |
| RoundTrip.WholeHolds | include/signet/writer.hpp:750-842 | In the finished file every chunk is where the recorded metadata says, and all its pages lie before the end |
| RoundTrip.ColumnReturns | include/signet/reader.hpp:554-681 | Reading column c of row group g of a written file returns its values if and only if the chunk is within the reader's limits and its encoding is lossless |
| RoundTrip.HexReturns | include/signet/reader.hpp:739-755 | A column of fixed-length byte arrays reads as the hexadecimal text of its values if and only if the chunk is within the reader's limits and its decoded size within 256 MB, whatever encoding was asked for |
| RoundTrip.WholeSize | include/signet/writer.hpp:1032-1049 | File size is at least 4 plus the recorded row-group sizes plus the footer plus 8, and equal to it if and only if every page is below two gigabytes |
| RoundTrip.DamagedPageFails | include/signet/reader.hpp:1412-1418 | Damage inside one page, confined to 32 consecutive bits, makes that page read fail and leaves what the reader makes of the dictionary page before it unchanged |
| RoundTrip.DamageRejected | include/signet/reader.hpp:554-681 | A column with such damage in its data page or its dictionary page is never returned: the read ends in an error |
| Crc32.PageCrc32 | include/signet/writer.hpp:142-158 | The table-driven checksum equals the bit-by-bit reflected CRC-32 of section 8 of RFC 1952 for every byte string |
| Crc32.CheckValue | include/signet/writer.hpp:142-158 | The checksum of the nine digits 1 to 9 is 0xCBF43926, the check value of this CRC |
| Crc32.MakeTable | include/signet/writer.hpp:143-152 | Every one of the 256 entries built by the nested loop is eight steps of the bitwise register from its index |
| Crc32.TableStep | include/signet/reader.hpp:74-91 | One table step on a byte is the same register change as feeding its eight bits one by one |
| Crc32.BurstDetected | include/signet/writer.hpp:142-158 | Two bit strings that differ only inside at most 32 consecutive bits leave different registers, whatever surrounds them and wherever the register starts |
| Crc32.DamageDetected | include/signet/reader.hpp:1226-1231 | Two different pages of equal length that differ only inside 32 consecutive bits, so in particular inside four bytes, never share a checksum |
| FileWriter.ParquetWriter.constructor | include/signet/writer.hpp:302-350 | A new writer is open, its file is the opening magic, and no row has been accepted or flushed |
| FileWriter.ParquetWriter.WriteRow | include/signet/writer.hpp:368-387 | A row of the wrong width changes nothing; an accepted row is added to the accepted rows and either waits or completes a group, which is then flushed with exactly max(1, row_group_size) rows |
| FileWriter.ParquetWriter.WriteColumn | include/signet/writer.hpp:419-511 | Error for every reason in the order the code checks them; otherwise the values are appended to exactly that column, up to the first one that cannot be stored |
| FileWriter.ParquetWriter.EncodePendingColumn | include/signet/writer.hpp:1427-1516 | Appends to one column the parsed cells of that column, in row order, and touches no other column |
| FileWriter.ParquetWriter.EncodePendingRows | include/signet/writer.hpp:1427-1516 | Each column is extended by its parsed cells and no row is left waiting |
| FileWriter.ParquetWriter.WriteRaw | include/signet/writer.hpp:1406-1414 | The bytes are appended and the offset advances by their number |
| FileWriter.ParquetWriter.WritePage | include/signet/writer.hpp:682-728 | A page goes out as header then data; the size counted for it is the one cut to 32 bits |
| FileWriter.ParquetWriter.WriteDictionaryColumn | include/signet/writer.hpp:1738-1945 | Succeeds exactly for the five types that have dictionaries; then the file has gained the two pages that encode the column, and the data page offset is the position after the first |
| FileWriter.ParquetWriter.WriteDataColumn | include/signet/writer.hpp:636-728 | Succeeds exactly for pages below two gigabytes; then the file has gained the page that encodes the column, and otherwise nothing |
| FileWriter.ParquetWriter.FlushColumn | include/signet/writer.hpp:576-837 | The bytes appended are the pages, bloom filter and indexes of the chunk; the metadata returned records their true positions and sizes |
| FileWriter.ParquetWriter.WriteBloom | include/signet/writer.hpp:796-811 | The bloom filter is recorded at the offset where its bytes are |
| FileWriter.ParquetWriter.WriteIndexes | include/signet/writer.hpp:813-834 | Column index and offset index are recorded where their bytes are, and nothing is written when they are switched off |
| FileWriter.ParquetWriter.WriteGroup | include/signet/writer.hpp:570-838 | The row group appended encodes exactly the buffered columns, in column order, and its recorded size is the accumulated one |
| FileWriter.ParquetWriter.FlushRowGroup | include/signet/writer.hpp:532-862 | After a successful flush no row and no value waits, the history has grown by at most one group that holds exactly what waited, and for row-only runs that group is the pending rows |
| FileWriter.ParquetWriter.FlushColumns | include/signet/writer.hpp:544-861 | Nothing is written when all columns are empty; otherwise one group with the buffered columns is recorded and the row total grows by their common length |
| FileWriter.ParquetWriter.RowsWritten | include/signet/writer.hpp:1138-1140 | For runs of row writes the number reported is the number of rows accepted |
| FileWriter.ParquetWriter.Close | include/signet/writer.hpp:881-1050 | A closed file is the image of its history; the reported size, rows and groups are those of the file; what waited is in the last group and all accepted rows are conserved; closing twice changes nothing; an empty schema is an error |
| FileWriter.HistoryGrows | include/signet/writer.hpp:840-842 | Flushing a group keeps every recorded fact: earlier bytes and group records stay, the new record is of the new bytes |
| FileWriter.ConservedFlush | include/signet/writer.hpp:540-567 | Flushed groups in order followed by the waiting rows stay exactly the accepted rows across a flush |
| FileWriter.ParsedColumn | include/signet/writer.hpp:1427-1516 | A parsed column has one value for each row; what the values are is said by WholeFile.BooleanCells and WholeFile.TextsShown |
| FileWriter.SoundIsFaithful | include/signet/writer.hpp:532-862 | Every group a run records is encoded as the reader theorems require |
| FileWriter.ParquetWriter.ResetWriters | include/signet/writer.hpp:844-849 | All columns are empty afterwards |
| FileFormat.ChunkTiles | include/signet/writer.hpp:576-837 | The recorded pages, bloom filter and indexes of a chunk follow one another without gap or overlap and fill the bytes of the chunk, if and only if its pages are below two gigabytes |
| FileFormat.GroupTiles | include/signet/writer.hpp:576-837 | The same for the chunks of a row group |
| FileFormat.FileTiles | include/signet/writer.hpp:532-862 | All recorded extents of a file tile the bytes between the opening magic and the footer if and only if every page is below two gigabytes |
| FileFormat.CountedIs | include/signet/writer.hpp:682-728 | The size counted for the pages of a chunk never exceeds the bytes written and equals them if and only if the 32-bit size fields can hold the page sizes |
| FileFormat.GroupSizeIs | include/signet/writer.hpp:570-841 | The recorded size of a row group never exceeds the bytes it takes in the file and equals them if and only if all its pages are below two gigabytes |
| FileFormat.BodySize | include/signet/writer.hpp:840-842 | The recorded sizes of all row groups and the opening magic add up to the offset of the footer if and only if every page is below two gigabytes, and to less otherwise |
| FileFormat.GroupAdvances | include/signet/writer.hpp:840-842 | One more flushed row group moves the file offset by its total_byte_size, if and only if its pages are below two gigabytes |
| FileFormat.GroupHolds | include/signet/writer.hpp:576-837 | The bytes of chunk c of a group are at the offset recorded for it |
| FileFormat.BodyHolds | include/signet/writer.hpp:576-842 | The bytes of chunk c of group g are at the recorded offset of the file, and the group record is of that group |
| FileReader.PageFound | include/signet/reader.hpp:1347-1473 | A page whose header and data are in the file at an offset is returned as written, with the offset behind it |
| FileReader.PageReadWhen | include/signet/reader.hpp:1347-1473 | A page is read if and only if its offset is inside the file, its header parses, its size is not negative and inside the file, and its checksum, if present, is that of its bytes |
| FileReader.OpensWhen | include/signet/reader.hpp:189-363 | A file opens if and only if it has 12 bytes to four gigabytes, starts and ends with PAR1, has a positive footer length that leaves room for the rest, and its footer parses; what is opened is that footer |
| FileReader.PageRejected | include/signet/reader.hpp:1412-1418 | A page with damage confined to 32 consecutive bits is rejected as corrupt |
| FileReader.ChunkReads | include/signet/reader.hpp:554-681 | A chunk found in a file decodes to its values if and only if it is within the reader's limits and its encoding is lossless, for dictionary and data pages alike |
| FileReader.DictReads | include/signet/reader.hpp:1477-1564 | A dictionary chunk decodes to its values if and only if no two equal numbers were spelled differently, its dictionary lost nothing that shows, and its index runs are admitted |
| FileReader.ParquetReader.ReadPageAt | include/signet/reader.hpp:1347-1473 | The page read, or the error of the first check that fails, is that of the page specification |
| FileReader.ParquetReader.ReadDictColumn | include/signet/reader.hpp:1477-1564 | The dictionary path with all its checks, including pages that follow one another when no dictionary offset is recorded |
| FileReader.ParquetReader.ReadPlain | include/signet/reader.hpp:656-681 | The batch path with its size cap, and the loop for other types, agree with reading value after value |
| FileReader.ParquetReader.ReadColumn | include/signet/reader.hpp:554-681 | Which decoder a column gets, and its result, follow from the recorded encodings and the physical type |
| FileReader.ParquetReader.ReadSplit | include/signet/reader.hpp:1614-1657 | The stream-split path returns the decoded values or its error for short data |
| FileReader.ParquetReader.ReadRleBools | include/signet/reader.hpp:1660-1697 | The boolean path: length prefix checked, values of the hybrid stream, silently fewer when it ends early |
| FileReader.ParquetReader.ReadHexColumn | include/signet/reader.hpp:739-755 | Fixed-length values come back as hexadecimal text or the first error met |
| FileReader.ParquetReader.ReadColumnAsStrings | include/signet/reader.hpp:698-760 | Each column type is read and shown through its own path |
| FileReader.ParquetReader.ReadRowGroup | include/signet/reader.hpp:774-788 | All columns of a group in order, or the first error |
| FileReader.ParquetReader.ReadAll | include/signet/reader.hpp:804-838 | The loops that transpose columns into rows compute the row specification, error cases included |
| FileReader.ParquetReader.FindAll | include/signet/reader.hpp:850-865 | Succeeds exactly when every name is a column; then there is one index for each name, in order, each of the first column of its name; otherwise a schema mismatch |
| FileReader.IndicesAre | include/signet/reader.hpp:850-865 | The same of the specification of the lookup, for every list of names |
| FileReader.ParquetReader.ReadColumns | include/signet/reader.hpp:850-882 | The loops over groups and names compute the projection, error cases included |
| Encodings.EncodeColumn | include/signet/writer.hpp:1585-1655 | The page made from the PLAIN bytes of a column encodes the values those bytes stand for; pairs of encoding and type without a meaning keep PLAIN bytes |
| Encodings.IntsRoundTrip | include/signet/writer.hpp:1593-1612 | Integers survive widening to 64 bits and narrowing back, and 32-bit neighbours always differ by less than 64 bits |
| Encodings.DeltaReads | include/signet/reader.hpp:1568-1611 | A delta page of up to the decoder's limit reads back if and only if all neighbours differ by a 64-bit amount; otherwise it is reported corrupt |
| Encodings.SplitReads | include/signet/reader.hpp:1614-1657 | A stream-split page of any float or double column reads back |
| Encodings.RleReads | include/signet/reader.hpp:1660-1697 | A boolean page reads back if and only if the payload fits its length prefix and the decoder admits the runs of its flags |
| Encodings.PlainReads | include/signet/reader.hpp:656-681 | A PLAIN page reads back if and only if its decoded size is within the cap |
| Encodings.PageReads | include/signet/reader.hpp:554-681 | Without a dictionary, the decoder picked for a recorded encoding returns the values if and only if the pair of encoding and column is lossless |
| Encodings.DictionaryReads | include/signet/reader.hpp:554-600 | A dictionary chunk is recognised by its recorded encodings and decodes to its values if and only if it is lossless |
| Encodings.FlagsLost | include/signet/reader.hpp:1660-1697 | A boolean page of 32 * 1024 * 1024 + 8 flags that does not read back |
| Encodings.DeltaLost | include/signet/reader.hpp:1568-1611 | An INT64 column of two values that is reported corrupt |
| Encodings.PlainSize | include/signet/column_writer.hpp:103-143 | Fixed-width columns take their width for every value |
| PlainCodec.PackOnePacks | include/signet/column_writer.hpp:83-98 | Setting the next bit in place keeps all earlier flags and leaves all later bits clear |
| PlainCodec.ColumnWriter.Write | include/signet/column_writer.hpp:83-202 | A value is accepted exactly when the type can store it; the buffer then is the PLAIN encoding of all values written and the statistics are theirs |
| PlainCodec.ColumnWriter.WriteBatch | include/signet/column_writer.hpp:239-253 | A batch is the same as its values one by one; it is refused exactly when one of them is, and then the values before that one are written |
| PlainCodec.ColumnWriter.Reset | include/signet/column_writer.hpp:273-278 | A reset writer holds no values |
| PlainCodec.ReadWritten | include/signet/column_reader.hpp:76-309 | A value read at the position where its bytes are is that value, and the cursor stands behind it |
| PlainCodec.ReadPlain | include/signet/column_reader.hpp:76-309 | Values written and then read one by one come back in order with the cursor at the end of their bytes, whatever follows them |
| PlainCodec.PlainRoundTrip | include/signet/column_reader.hpp:76-309 | Any values of any readable type survive; for byte-aligned types the cursor ends at the end of the buffer |
| PlainCodec.FlagsRoundTrip | include/signet/column_reader.hpp:76-95 | Bit-packed flags survive, with the bit cursor on their number |
| PlainCodec.ColumnReader.Read | include/signet/column_reader.hpp:76-309 | One read gives the value or error of the specification and moves the cursor accordingly; an error moves nothing |
| PlainCodec.ColumnReader.ReadBatch | include/signet/column_reader.hpp:319-490 | A batch of n succeeds if and only if n single reads do, with the same values and the same cursor; its error code for each reason, and the cursor each error leaves |
| PlainCodec.ManyFixed | include/signet/column_reader.hpp:349-455 | For fixed-width types n single reads succeed exactly when n widths are left, and give the consecutive slices |
| PlainCodec.ManyCount | include/signet/column_reader.hpp:319-490 | Successful reads return as many values as asked for, never more than the page declares |
| PlainCodec.Extract | include/signet/writer.hpp:1669-1734 | The values taken back out of a column writer's buffer are the values written to it |
| Statistics.LeRoundTrip | include/signet/statistics.hpp:34-80 | Values survive the conversion to statistics bytes and back |
| Statistics.ColumnStatistics.Add | include/signet/statistics.hpp:304-372 | An update has the effect of the specification on all fields: a NaN changes nothing, a tie keeps the first spelling |
| Statistics.ColumnStatistics.AddNull | include/signet/statistics.hpp:135-138 | A null changes the null count alone |
| Statistics.ColumnStatistics.MergeFrom | include/signet/statistics.hpp:223-298 | Merging has the effect of the specification on all fields |
| Statistics.FeedExact | include/signet/statistics.hpp:304-372 | After any sequence of updates the stored bytes are those of the first least and first greatest value that is not NaN, and the counts are exact |
| Statistics.BestAt | include/signet/statistics.hpp:304-372 | The bound kept is the first one no other value beats |
| Statistics.MergeExact | include/signet/statistics.hpp:223-298 | Whatever types are recorded and tracked, merging gives the statistics of the concatenation if and only if comparing the stored bytes under the recorded type picks the right one of the two minima and of the two maxima |
| Statistics.HalvesDecide | include/signet/statistics.hpp:281-298 | Under the default type a bound of 64-bit values is right if and only if the lower 32 bits of the two candidates compare as the candidates do |
| Statistics.MergeUnset | include/signet/statistics.hpp:223-298 | The exact condition, on the lower halves of the minima and of the maxima, under which merging 64-bit columns with the default type is right |
| Statistics.ColumnStatistics.SetType | include/signet/statistics.hpp:208 | Only the recorded type changes |
| Statistics.ColumnStatistics.SetDistinctCount | include/signet/statistics.hpp:204 | Only the distinct count changes |
| Statistics.ColumnStatistics.Reset | include/signet/statistics.hpp:140-147 | Everything but the recorded type is as in a new tracker |
| Statistics.MergeIsFeed | include/signet/statistics.hpp:223-298 | With the type set, merging the statistics of a and of b gives byte for byte the statistics of a followed by b, signed zeros included |
| Statistics.MergeNeedsType | include/signet/statistics.hpp:223-298 | A concrete pair of 64-bit trackers whose merge under the default type picks the wrong minimum |
| PageIndex.FilterPages | include/signet/column_index.hpp:294-372 | The pages returned are in increasing order and are exactly those that are not all null and whose recorded interval meets the query interval |
| PageIndex.NoMatchDropped | include/signet/column_index.hpp:294-372 | When the index is built from tracked statistics, the page of any value inside the query interval is among the pages returned |
| PageIndex.MatchIs | include/signet/column_index.hpp:294-372 | A page that counted a value is returned if and only if one of its values is not below the interval and one is not above it; a page of nulls never is |
| PageIndex.FedByOne | include/signet/writer.hpp:731-747 | The single page the writer records for a chunk is fed from the statistics of that chunk |
| PageIndex.CompareValues | include/signet/column_index.hpp:534-597 | Comparing stored bytes is comparing the values they encode |
| PageIndex.CompareIsOrder | include/signet/column_index.hpp:534-597 | Comparison of bounds is reflexive and transitive on bounds of the type's width |
| PageIndex.DetectBoundaryOrder | include/signet/column_index.hpp:534-597 | The two flags of the loop decide the boundary order of the specification |
| PageIndex.BoundaryOrderHolds | include/signet/column_index.hpp:534-597 | The order detected between neighbours is ascending exactly when no minimum is below any earlier one, and otherwise descending exactly when none is above any earlier one |
| PageIndex.ColumnIndexBuilder.RecordPage | include/signet/column_index.hpp:398-455 | A started page ends up with the minimum, maximum, null flag, counts and location given, and no other page changes |
| PageIndex.ColumnIndexBuilder.BuildColumnIndex | include/signet/column_index.hpp:459-488 | The index lists every page recorded, in order |
| PageIndex.ColumnIndexBuilder.BuildOffsetIndex | include/signet/column_index.hpp:492-505 | The offset index lists every location recorded, in order |
| TicksQuery.Query | examples/ticks_query.cpp:270-376 | The rows emitted with row-group skipping are exactly the first `limit` rows of the plain filter over all readable groups in file order; each has the symbol, exchange and time asked for, and below the limit every such tick is emitted as often as it occurs |
| TicksQuery.FilterIs | examples/ticks_query.cpp:353-360 | The plain filter keeps a tick exactly when its symbol and exchange are the ones given and its time is in the closed interval given |
| TicksQuery.SkipSound | examples/ticks_query.cpp:271-320 | A row group that is skipped contains no row the filter passes |
| TicksQuery.OutsideTimeIs | examples/ticks_query.cpp:270-312 | A row group is skipped by time if and only if it has statistics and all its times are before the lower or all behind the upper bound asked for |
| TicksQuery.OutsideBytesIs | examples/ticks_query.cpp:270-312 | A row group is skipped by symbol or exchange if and only if it has statistics and the wanted text is before all of its texts or behind all of them |
| TicksQuery.BoundsEnclose | include/signet/statistics.hpp:304-372 | The recorded minimum and maximum enclose every value fed that is not NaN |
| TicksQuery.TimeInside | examples/ticks_query.cpp:296-320 | A timestamp inside the queried range is never outside the recorded bounds |
| Morton.DeinterleaveOfMorton | include/signet/z_order.hpp:134-167 | Deinterleaving undoes interleaving on all pairs of words |
| Morton.MortonOfDeinterleave | include/signet/z_order.hpp:134-167 | Interleaving undoes deinterleaving on all 64-bit codes, so both are bijections |
| Morton.MortonNd | include/signet/z_order.hpp:183-208 | The key of any number of columns is the plain bit interleaving, most significant level first, with clear padding |
| Morton.MortonIsInterleave | include/signet/z_order.hpp:134-149 | The big-endian bytes of the two-column code of (x, y) are the plain interleaving of y and x |
| Morton.InterleaveMonotone | include/signet/z_order.hpp:183-208 | If every word of one row is at most that of another, its interleaving is at most the other's, for any number of columns |
| Morton.KeyOrder | include/signet/z_order.hpp:299-302 | Comparing keys as byte strings is comparing their bits from the most significant one |
| Morton.FastOrder | include/signet/z_order.hpp:282-284 | Unsigned comparison of two-column codes agrees with lexicographic comparison of their big-endian bytes |
| ZOrder.FastIsGeneral | include/signet/z_order.hpp:273-302 | The two-column key is byte for byte the general key of the columns in the opposite order |
| ZOrder.NormalizeString | include/signet/z_order.hpp:102-112 | The loop computes the big-endian word of the first four bytes, zero padded |
| ZOrder.Int32Order | include/signet/z_order.hpp:51-53 | Normalisation keeps the order of signed 32-bit integers in both directions |
| ZOrder.Int64Order | include/signet/z_order.hpp:58-60 | Normalisation and truncation keep the order of signed 64-bit integers |
| ZOrder.FloatFlips | include/signet/z_order.hpp:70-76 | The mask and exclusive-or of the code are, on numbers, the flip of the sign bit of non-negative patterns and of every bit of negative ones |
| ZOrder.DoubleFlips | include/signet/z_order.hpp:83-89 | The same for 64 bits |
| ZOrder.DoubleTotalOrder | include/signet/z_order.hpp:83-89 | Before truncation, normalisation keeps the total order of doubles in both directions |
| ZOrder.DoubleNumericOrder | include/signet/z_order.hpp:83-89 | It keeps the numeric order of two doubles that are not NaN if and only if they are not minus zero and plus zero, in that order |
| ZOrder.Int64WordOrder | include/signet/z_order.hpp:58-60 | Before truncation, normalisation keeps the order of signed 64-bit integers in both directions |
| ZOrder.FloatOrder | include/signet/z_order.hpp:70-76 | Normalisation keeps the total order of section 5.10 of IEEE 754-2019 in both directions |
| ZOrder.FloatNumericOrder | include/signet/z_order.hpp:70-76 | It keeps the numeric order of two floats that are not NaN if and only if they are not minus zero and plus zero, in that order |
| ZOrder.DoubleOrder | include/signet/z_order.hpp:83-89 | Normalisation and truncation keep the total order of doubles |
| ZOrder.StringOrder | include/signet/z_order.hpp:102-112 | Strings in byte order have keys in order |
| ZOrder.NormalizeMonotone | include/signet/z_order.hpp:51-119 | Every column type is normalised monotonically |
| ZOrder.NormalizeColumn | include/signet/z_order.hpp:314-385 | A null pointer is an error; otherwise row i gets the normalised word of value i |
| ZOrder.WordKeeps | include/signet/z_order.hpp:314-385 | Two values have words in order exactly when the parts kept are in order, and equal words exactly when these are equal: all of INT32 and FLOAT, the upper half of INT64 and DOUBLE, four zero-padded bytes of strings |
| ZOrder.Sort | include/signet/z_order.hpp:248-302 | Errors for wrong counts and null columns; otherwise a permutation of all rows in non-decreasing order of their Morton codes, which for a single column is the order of its values on the part the key keeps |
| ZOrder.CodeMonotone | include/signet/z_order.hpp:248-302 | A row that is at most another in every typed column has a code that is at most the other's |
| ZOrder.CodeKeeps | include/signet/z_order.hpp:248-302 | Two rows have equal codes if and only if the kept parts of their values are equal in every column |
| ZOrder.SortedRows | include/signet/z_order.hpp:248-302 | In a sorted result a later row that is at most an earlier one in every kept part equals it in all of them: strictly smaller rows come first |
| Morton.InterleaveInjective | include/signet/z_order.hpp:183-208 | Interleaving all 32 bits determines the words, for any number of columns |
| ZOrder.DominatedRowsTie | include/signet/z_order.hpp:248-302 | If a later row of the sorted order is at most an earlier one in every column, both have the same code |
| ZOrder.FastKeys | include/signet/z_order.hpp:273-279 | The keys of the two-column path are the codes of the rows |
| ZOrder.GeneralKeys | include/signet/z_order.hpp:288-296 | The keys of the general path are the codes of the rows |
| Orders.FlippedTotalOrder | include/signet/z_order.hpp:70-89 | The flip on numbers, which ZOrder.FloatFlips and ZOrder.DoubleFlips prove to be what the code does, maps the total order of any binary format to the order of integers, in both directions |
| Orders.FlippedNumericOrder | include/signet/z_order.hpp:70-89 | The flip on numbers maps the order of the numbers denoted exactly when the pair is not minus zero and plus zero |
| Packing.PackRoundTrip | include/signet/encoding/rle.hpp:116-183 | Values that fit the width survive packing and unpacking, whatever follows them |
| Packing.PackBits | include/signet/encoding/rle.hpp:116-143 | The loop that writes each value in chunks, as many bits as the byte at the cursor has room for, produces the fixed-width digits of the values |
| Packing.PackOneValue | include/signet/encoding/rle.hpp:126-142 | Or-ing the chunks of one value in place adds its digits and disturbs no other bit |
| Packing.UnpackBits | include/signet/encoding/rle.hpp:154-183 | The loop that gathers chunks yields the values whose digits the bits are |
| Packing.UnpackOneValue | include/signet/encoding/rle.hpp:164-181 | One value gathered from shifted and masked bytes is the number its bits denote |
| Packing.VarintRoundTrip | include/signet/encoding/rle.hpp:62-104 | Any 64-bit number survives its varint in any surroundings |
| Packing.DigitsRoundTrip | include/signet/encoding/rle.hpp:116-183 | Fixed-width binary digits determine the numbers |
| Rle.RleEncoder.Put | include/signet/encoding/rle.hpp:228-266 | One value moves the encoder as its run choice does, and everything put so far is, in order, in the runs, closed groups, open group and open run |
| Rle.RleEncoder.Flush | include/signet/encoding/rle.hpp:272-304 | The buffer then is the bytes of the finished runs, which spell what was put and, in the last run only, fewer than eight zeros more |
| Rle.RleEncoder.FlushRun | include/signet/encoding/rle.hpp:411-423 | Closed groups come out before the repeated run, nothing put is lost |
| Rle.RleEncoder.FlushGroups | include/signet/encoding/rle.hpp:434-443 | All closed groups come out under one header |
| Rle.Encode | include/signet/encoding/rle.hpp:342-358 | Encoding a sequence gives the bytes of the runs chosen for it; width zero gives no bytes |
| Rle.RleDecoder.Next | include/signet/encoding/rle.hpp:495-590 | One step of the decoder, with all its guards, is the step of the specification; after a failed one the position is behind the header or the data it gave up on |
| Rle.DecodeValues | include/signet/encoding/rle.hpp:626-643 | The decoding loop computes what the specification takes from the data |
| Rle.GetStep | include/signet/encoding/rle.hpp:495-590 | On encoded data a step yields the next value put, and fails exactly at the end or at a run the guards refuse |
| Rle.TakeUsable | include/signet/encoding/rle.hpp:601-643 | What the decoder yields is exactly the runs before the first refused one |
| Rle.DecodeMore | include/signet/encoding/rle.hpp:626-643 | Asked for more values than were written, the decoder yields them and then at most the zeros that pad the last group, if its guards admit every run; otherwise it stops among the values |
| Rle.DecodeEncoded | include/signet/encoding/rle.hpp:626-643 | Decoding undoes encoding if and only if the guards admit every run the values form; a failure always shows in the length |
| Rle.ShortAccepted | include/signet/encoding/rle.hpp:495-590 | Up to 32 * 1024 * 1024 values are always admitted |
| Rle.OneRun | include/signet/encoding/rle.hpp:228-266 | Two equal values before a different one keep the encoder packing bits to the end: the whole sequence becomes one packed run |
| Rle.Repeats | include/signet/encoding/rle.hpp:228-266 | A repeated value is one repeated run; followed by others it stays one if and only if it was seen at least eight times |
| Rle.OneRunAccepted | include/signet/encoding/rle.hpp:495-590 | Such a sequence reads back if and only if it has at most 32 * 1024 * 1024 values |
| Rle.PayloadLength | include/signet/encoding/rle.hpp:371-386 | Payloads of pages within the reader's value limit fit the length prefix |
| Delta.ZigzagIs | include/signet/encoding/delta.hpp:79-82 | The shift and exclusive-or on a 64-bit word doubles the signed number it stands for and folds the negative ones in between |
| Delta.UnzigzagIs | include/signet/encoding/delta.hpp:102-105 | The shift, mask and negation on a word undo that |
| Delta.ZigzagRoundTrip | include/signet/encoding/delta.hpp:79-105 | Zigzag coding of numbers is undone on all 64-bit integers |
| Delta.BitWidthHolds | include/signet/encoding/delta.hpp:179-187 | The width computed holds the value |
| Delta.BitWidthLeast | include/signet/encoding/delta.hpp:179-187 | and no smaller width does |
| Delta.BlockReads | include/signet/encoding/delta.hpp:438-552 | A block read back continues the values by its differences, stopping where a sum overflows |
| Delta.BlocksRead | include/signet/encoding/delta.hpp:438-552 | All blocks together continue the values by all differences |
| Delta.FollowsBack | include/signet/encoding/delta.hpp:520-545 | Adding the wrapped differences gives the values back if and only if no difference left 64 bits, and otherwise a shorter sequence |
| Delta.DecodeEncoded | include/signet/encoding/delta.hpp:298-397 | Decoding undoes encoding if and only if all consecutive differences fit 64 bits; a failure always shows in the length |
| ByteStreamSplit.Encode | include/signet/encoding/byte_stream_split.hpp:67-121 | Byte b of value i goes to position b * n + i |
| ByteStreamSplit.Decode | include/signet/encoding/byte_stream_split.hpp:136-192 | The inverse placement, and nothing for short data |
| ByteStreamSplit.UnsplitSplit | include/signet/encoding/byte_stream_split.hpp:136-192 | Splitting is undone for any width and whatever follows |
| Dictionary.DictionaryEncoder.Put | include/signet/encoding/dictionary.hpp:283-300 | Entries and indices are those of the values put so far; false is returned exactly when the value got no index |
| Dictionary.SameKeyIsNumeric | include/signet/encoding/dictionary.hpp:283-300 | Floats share an entry exactly when they are equal numbers, so the two zeros share one and NaN never shares |
| Dictionary.FindFirst | include/signet/encoding/dictionary.hpp:283-300 | The entry found is the first that shares the key |
| Dictionary.LookupReturns | include/signet/encoding/dictionary.hpp:451-478 | Looking the indices up returns the values if and only if all had room and equal keys were equal bits |
| Dictionary.AllIndexed | include/signet/encoding/dictionary.hpp:283-300 | Every value has an index if and only if the dictionary never ran full |
| Dictionary.IndicesFit | include/signet/encoding/dictionary.hpp:66-76 | Every index fits the width computed from the number of entries |
| Dictionary.IndexWidthLeast | include/signet/encoding/dictionary.hpp:66-76 | The width holds the last index and is the least that does |
| Dictionary.EntriesRead | include/signet/encoding/dictionary.hpp:428-438 | The dictionary page reads back as the entries |
| Dictionary.PagesRead | include/signet/encoding/dictionary.hpp:451-478 | The two pages decode to the column if and only if no equal numbers were spelled differently, the index runs are admitted, and nothing was lost that shows: the dictionary had room, or the values behind the last held one are the NaN of entry 0 and no more than the zeros that pad the last index group |
| Dictionary.PaddedLookup | include/signet/encoding/dictionary.hpp:333-345 | Looking up the indices and their padding zeros gives the values back exactly under that condition |
| Dictionary.ZerosRespelled | include/signet/encoding/dictionary.hpp:283-300 | A column that does not read back: plus zero, then minus zero |
| Dictionary.Encode | include/signet/encoding/dictionary.hpp:317-345 | The two pages hold the entries and the bit-packed or run-length indices behind their width |
| Csv.SplitLine | include/signet/writer.hpp:1986-2035 | The scanner loop, whose index strictly advances, computes the field specification |
| Csv.TrimString | include/signet/writer.hpp:2038-2046 | Trimming in place computes the trimmed text |
| Csv.TrimSplits | include/signet/writer.hpp:2038-2046 | What is trimmed is blanks, tabs and line ends around a text that neither starts nor ends with one |
| Csv.SplitRendered | include/signet/writer.hpp:1986-2035 | Splitting undoes rendering by section 2 of RFC 4180: for every non-empty list of cells, each quoted or free of special characters, the fields are the cell texts, trimmed |
| Csv.ScanQuoted | include/signet/writer.hpp:1986-2035 | Inside quotes doubled quotes, commas and blanks are read back as text up to the closing quote |
| CsvImport.SplitLines | include/signet/writer.hpp:1202-1212 | Data lines become rows of the header's width; empty lines are skipped |
| CsvImport.RowPerLine | include/signet/writer.hpp:1202-1212 | Lines that are not empty give one row each, in order |
| CsvImport.EmptyLines | include/signet/writer.hpp:1202-1212 | An empty line anywhere changes nothing |
| CsvImport.ResizedIs | include/signet/writer.hpp:1202-1212 | A row keeps the fields the header has room for and is filled up with empty ones |
| CsvImport.WriteRows | include/signet/writer.hpp:1291-1309 | Writing rows one by one and closing leaves a file that conserves them, in full groups and one last smaller group |
| CsvImport.ImportReturns | include/signet/writer.hpp:1202-1309 | Reading the imported file returns the rows of the lines, every cell respelled; as they are, for strings and booleans spelled true or false |
| Calendar.Epoch | include/signet/error.hpp:512-521 | 1970-01-01 is day 0 |
| Calendar.NextDay | include/signet/error.hpp:512-521 | From each valid Gregorian date to the next the day number rises by exactly one, for every year, month ends, leap days and negative years included |
| Calendar.YearLength | include/signet/error.hpp:524-526 | Years are 365 days long, leap years 366 |
| Calendar.DaysMonotone | include/signet/error.hpp:512-521 | Earlier dates have smaller day numbers |
| Calendar.ParseIsoDate | include/signet/error.hpp:529-560 | Accepts exactly the texts of valid dates in the fixed format and returns their day number |
| Calendar.IsoOrder | include/signet/error.hpp:529-560 | For accepted texts, text order and day order coincide, and equal days are equal texts |
| Metering.Meter.Enforce | include/signet/error.hpp:954-1081 | One call has the effect and result of the step specification, and the limit error exactly for one of the reasons spelled out on its inputs |
| Metering.CallIs | include/signet/error.hpp:954-1081 | On the inputs alone: a call is refused if and only if it is past the last day, a user or node too many, an increment that does not fit under the limit or 64 bits, or a check with no row left; otherwise it adds its increment, and fails exactly when the state must be written and cannot |
| Metering.Remembers | include/signet/error.hpp:954-1081 | Month, start of the clock, users, nodes and warnings a call leaves behind, refused or not, on the inputs alone |
| Metering.Meter.CheckIdentity | include/signet/error.hpp:995-1013 | New identities are recorded before the limits are checked |
| Metering.Meter.Persist | include/signet/error.hpp:745-796 | A successful write marks the counter as saved; a failed one changes nothing |
| Metering.StepSafe | include/signet/error.hpp:954-1081 | A call keeps the counter within the limit and adds its increment exactly when it was not refused, starting from zero in a new month |
| Metering.RunSafe | include/signet/error.hpp:954-1081 | Over every run from a safe state the counter stays within the limit |
| Metering.CounterIs | include/signet/error.hpp:1015-1043 | Within a month the counter is the loaded one, or 0 after a rollover, plus the increments that were admitted |
| Metering.RecordingPersists | include/signet/error.hpp:1032-1037 | After every successful recording call fewer than 10,000 rows are unsaved, and none when the limit is reached |
| Metering.LockedOut | include/signet/error.hpp:995-1013 | Once too many users or nodes were seen, every later call is refused, also those of identities known before |
| UsageState.TrimClean | include/signet/error.hpp:417-429 | A trimmed text neither starts nor ends with white space |
| UsageState.TrimRest | include/signet/error.hpp:417-429 | Trimming removes white space only, at both ends |
| UsageState.SanitizeIs | include/signet/error.hpp:440-459 | Of the first 128 characters left by trimming, letters, digits and - _ . @ stay and every other becomes an underscore; the fallback when nothing is left |
| UsageState.SanitizeIdentity | include/signet/error.hpp:440-459 | The loops compute the sanitised identity |
| UsageState.SanitizeKeeps | include/signet/error.hpp:440-459 | Clean identities are kept |
| UsageState.SanitizeIdempotent | include/signet/error.hpp:440-459 | Sanitised identities are clean, free of commas, equal signs and line breaks, and fixed by sanitising again |
| UsageState.ParseDecimal | include/signet/error.hpp:484-499 | Accepts exactly the non-empty digit strings whose number fits 64 bits and returns that number |
| UsageState.DecimalNumber | include/signet/error.hpp:775-777 | Decimal texts denote the number they were printed from |
| UsageState.IdentitiesReturn | include/signet/error.hpp:670-700 | Splitting a comma-joined list of clean identities gives exactly those identities |
| UsageState.PiecesOfJoin | include/signet/error.hpp:670-700 | Splitting undoes joining |
| UsageState.LineSets | include/signet/error.hpp:710-737 | A key=value line sets exactly the field of its key |
| UsageState.LoadsPersisted | include/signet/error.hpp:702-796 | Loading what was persisted into a fresh state recovers all numbers, flags and both sets |
| Alignment.AlignUpIsLeast | include/signet/memory.hpp:203-209 | The mask trick gives the least aligned offset not below its input, or the largest size when the sum would pass it |
| Alignment.AndNotMask | include/signet/memory.hpp:203-209 | Clearing the low k bits rounds down to a multiple of 2 to the k |
| Arena.FitIsSound | include/signet/memory.hpp:173-184 | The offset handed out is aligned, above what is used and inside the block if and only if the unguarded sum does not wrap |
| Arena.WrappingEscapes | include/signet/memory.hpp:173-184 | A concrete request for which it wraps and lies outside the block |
| Arena.Arena.TakeFromLast | include/signet/memory.hpp:173-184 | A fit extends the live regions by one that is apart from all of them; a misfit changes nothing |
| Arena.Arena.Allocate | include/signet/memory.hpp:52-79 | Between resets all regions lie in their blocks, are aligned and pairwise disjoint; a request fails only for size zero, overflow or lack of memory, and then adds no region |
| Arena.Arena.BytesUsed | include/signet/memory.hpp:141 | The number reported is the sum of the sizes of the live regions |
| Arena.Arena.Reset | include/signet/memory.hpp:147-152 | No region is live afterwards and no block is given back |
| Arena.FreshBlock | include/signet/memory.hpp:186-201 | A fresh block fits a request exactly when it is large enough, so the second attempt succeeds |
| RowLineage.RowLineageTracker.Next | include/signet/ai/row_lineage.hpp:77-94 | The id is the number of rows before, the previous hash covers exactly those rows |
| RowLineage.RowLineageTracker.Reset | include/signet/ai/row_lineage.hpp:106-109 | Origin and version change, ids and chain go on |
| RowLineage.ChainLength | include/signet/ai/row_lineage.hpp:118-126 | Chain hashes always have 64 digits |
| RowLineage.ChainEvidence | include/signet/ai/row_lineage.hpp:77-94 | Two runs that end with the same chain hash had identical rows, or a hash collision or a preimage of the all-zero start value is exhibited |
| HexText.HexInjective | include/signet/ai/row_lineage.hpp:118-126 | Hexadecimal text determines the bytes |
| HexText.HexSpells | include/signet/ai/row_lineage.hpp:118-126 | A byte is spelled by the lowercase digits of its quotient and its remainder by sixteen |

## Left out

Members whose contract says less than the code or its documentation might suggest:

- WholeFile.ClosedFileReads: the Thrift structures are abstract functions with the law that decoding undoes encoding with any bytes behind; it is about files of at most the reader's four gigabytes.
- WholeFile.RowsReturn: goes one way, from chunks that come back (`Kept`) and at most the reader's row limit; the other way fails, as rows pad a column that came back short with empty cells, which the lost values may have been. Cells of numeric columns come back as the codec prints what it parsed, both abstract; INT96 columns, which the reader cannot print, are excluded, as are fixed-length byte arrays without a declared length.
- CsvImport.ImportReturns: the same; the schema is an input, since type detection is not modelled.
- FileWriter.ParquetWriter.FlushRowGroup: promises nothing about the writer after a flush that failed midway, as the source can then hold unrecorded bytes and half-fed index builders.
- FileWriter.ParquetWriter.WriteRow: promises nothing about the writer after a flush inside it failed; it asks that the waiting values stay within the counters of the source (`Countable`): 8 * (2 to the 31, less one) values in a column that may get a dictionary or boolean run lengths, where more could overflow the encoder's group counter, and 2 to the 63 in others.
- FileWriter.ParquetWriter.WriteColumn: a value too long for a 32-bit length field, which throws `std::length_error` in the source, is the error `LENGTH_ERROR`.
- FileWriter.ParquetWriter.WriteIndexes: the builder object is made per chunk, not kept by the writer; page, index and bloom lengths in the chunk record are not cut to 32 bits.
- FileWriter.ParquetWriter.Close: the statistics returned are size, rows and groups; ratios and per-column summaries are left out.
- RoundTrip.DamageRejected: says that damage ends in an error, which is a corrupt page unless the column could not be decoded in the first place.
- Encodings.PageReads: the set of encodings a chunk records is kept in one fixed order.
- Delta.DecodeEncoded: the encoder and decoder loops are modelled as functions over blocks, so updates in place are not captured.
- Packing.PackRoundTrip: is about binary digits; `Packing.PackBits` and `Packing.UnpackBits` are the loops that produce and read them.
- Packing.UnpackBits: values are numbers, so a shift is a product or quotient by a power of two, and chunks that the source joins with an or of disjoint bits are added.
- Packing.VarintRoundTrip: shifts by seven bits and masks are written as division and remainder.
- Rle.RleEncoder.Put: asks for room in the counter of waiting groups, an `int` in the source, and for fewer than 2 to the 63 values, the point where the source caps a run; `Rle.Encode` asks for at most 8 * (2 to the 31, less one) values, which never pass it.
- PlainCodec.ColumnReader.ReadBatch: asks for pages below 2 to the 60 bytes and for counts whose sums stay within their 64 bits (`NoOverflow`); beyond that the source has undefined behaviour.
- PageIndex.BoundaryOrderHolds: for bounds of the type's width, without NaN, as stored by the tracker.
- TicksQuery.Query: whether the nine column reads of a group succeed is an input, and printing is left out.
- ZOrder.Sort: `std::sort` is replaced by an insertion sort that meets its specification; order among equal keys is not part of any claim.
- Metering.Meter.Enforce: the clock, the detected user and node and the outcome of the write are inputs; percentages are compared exactly where the source divides in `long double`.
- UsageState.LoadsPersisted: the two sets are printed in any order of their elements, the source prints them sorted.
- Arena.Arena.Allocate: for requests whose unguarded sum does not wrap in the current block; whether the system has memory is an input.
- Alignment.AlignUpIsLeast: the bitwise complement is modelled on the binary digits of natural numbers.
- RowLineage.ChainEvidence: the hash is any function with 32-byte results, and the row counter is not cut to 64 bits.

Not modelled at all:

- Page compression and encrypted files: separate codecs with their own sources.
- Thrift compact encoding and bloom filter contents: used as abstract functions of the codec.
- File streams, directories, environment variables, licence tokens and stderr output.
- Text parsing and printing of numbers, and the CSV type detection that rests on it.
- Root schema name, logical types, repetition, `created_by` and key-value metadata.
- Reading bloom filters and page indexes back from a file.
- `include/signet/mmap_reader.hpp`: a near copy of the reader's page path.
- Moving writers and readers, and the writer's closing destructor.
- The other examples, bindings, benchmarks and tools.
