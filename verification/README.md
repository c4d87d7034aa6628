# log_parser core, modelled in Dafny

log_parser reads a log file of delimiter-separated records (JSON lines by
default), takes the `"type":` field of each record and sums the record sizes
per type. It reports the per-type sizes, the total size and the lines that
failed to parse. It has two drivers:

- a line-by-line summarizer, which reads one record at a time and numbers the
  failed lines from zero;
- a batch summarizer, which works in three stages:
  - a reader cuts the file into delimiter-aligned batches;
  - a mapper task summarizes each batch and only counts its failures;
  - a reducer merges the mappers' summaries in whatever order they arrive.

This project models the pipeline without file handling and task scheduling.
Every piece is a pure function over byte sequences (`seq<byte>`, with `byte`
a newtype over 0..255) and a small aggregate. The files are:

- `bytes.dfy`: bytes, `Option` and the flattening of record lists.
- `parsers.dfy`: the parser strategy (a function value, for the source's
  `P: Parser`) and `LogLineMetadata`. It also holds the byte-scan contract the
  two scan parsers meet, `MeetsContract`: success exactly on lines with a type
  field, the name between the first quote after the first marker and the next
  quote, and `bytes` the line's length.
- `string_parser.dfy`: `find_subsequence` and `StringParser::parse`.
- `char_parser.dfy`: `find_char` and `CharParser::parse`, and their agreement
  with the window-search versions.
- `byte_lines.dfy`: the record splitter.
  - `Lines` is the reference decomposition.
  - `ByteLines`/`New`/`Next` are the iterator, with its `read_start`/`read_end`
    indices.
- `batch_reader.dfy`: the batch reader. The stream is a byte sequence with a
  read position.
  - `take(..).read_to_end` reads the next `min(limit, remaining)` bytes.
  - A missing delimiter, where the source unwraps `None`, is the explicit
    outcome `NoDelimiterPanic`.
- `sync_parser_error.dfy`, `async_parser_error.dfy`: the two error tallies, a
  list of line numbers and a count.
- `summary.dfy`: `Summary` with its type map `map<seq<byte>, nat>`.
  - `ErrorSummary` is a tagged union of the two tallies; it stands for the
    source's generic `E: ErrorSummary`.
  - The operations are `new`, `register_error`, `accumulate`, `combine`
    (also as the in-place loop over the hash map) and `total_size`.
  - Lemmas prove the algebra of `combine`.
- `sync_summarizer.dfy`: the `read_until` / parse / line-number loop over an
  in-memory file, and what its result means.
- `async_summarizer.dfy`: the mapper and reducer as sequential functions, and
  the headline result. When the batch size is non-zero and the file fits
  (it is empty or ends with the delimiter, and no record is longer than a
  batch), map-reduce, in any arrival order, gives the same type map and
  error total as one pass over the file. Otherwise the reader task panics
  and the run fails: a batch size of 0 divides the file length by zero when
  the reader sizes its list of mapper handles, and a file whose last record
  has no delimiter, or a record longer than a batch, leaves a buffer without
  a delimiter to split at.

The state the operations work on:

- `Parsers.LogLineMetadata` is `LogLineMetadata`
  (src/parsers/mod.rs:20-23), with the type name copied out of the line.
- `ByteLines.ByteLines` is the iterator state `delim`, `buf`, `read_start`,
  `read_end` (src/summarizers/async_buf_reader/byte_lines.rs:4-9).
- `BatchReader.BatchReader` is `AsyncBatchReader`
  (src/summarizers/async_buf_reader/batch_reader.rs:8-13), with the reader
  replaced by a byte sequence and a read position.
- `Summaries.Summary` is `Summary<E>` (src/summary.rs:29-32), with the
  generic tally `E` as the union `ErrorSummary`.

## Model

| member | source | states |
|---|---|---|
| StringParser.FindSubsequence | src/parsers/string_parser.rs:32-36 | the result is the least index at which the needle occurs, and `None` exactly when it occurs nowhere (also when the haystack is shorter than the needle) |
| StringParser.FindFrom | src/parsers/string_parser.rs:33-35 | the window scan resumed at `start` finds the first occurrence at or after `start`, given none before it |
| StringParser.QuoteSearch | src/parsers/string_parser.rs:17-21 | a quote search in `line[from..]` finds the first quote byte at or after `from`, and fails exactly when no quote follows `from` |
| StringParser.Parse | src/parsers/string_parser.rs:14-29 | `StringParser::parse` meets the byte-scan contract: it succeeds exactly on lines with a type field. The name is the bytes strictly between the first quote after the first marker and the next quote, so it holds no quote. `bytes` is the full line length |
| StringParser.ParseAfterMarker | src/parsers/string_parser.rs:17-28 | with the marker at `index`, a returned name starts just after the first quote at or after the marker's end and runs, quote-free, up to the next quote; `bytes` is the line length |
| StringParser.ParseName | src/parsers/string_parser.rs:20-28 | with the opening quote at `startIndex`, the parse fails exactly when no quote follows it, and otherwise returns the quote-free bytes up to the next quote and the line length |
| StringParser.AfterMarkerMeetsContract | src/parsers/string_parser.rs:16-28 | with the first marker at `index`, the rest of the parse meets the contract (fails without an opening quote, else continues to the name) |
| StringParser.OpeningQuoteMeetsContract | src/parsers/string_parser.rs:17-27 | with the opening quote found `i` bytes past the marker, the name step meets the contract |
| StringParser.NameMeetsContract | src/parsers/string_parser.rs:20-28 | with the opening quote at `q`, the parse fails exactly when no second quote follows, and otherwise returns the bytes between the two quotes |
| StringParser.NoOpeningQuote | src/parsers/string_parser.rs:16-28 | no quote after the first marker means the line has no type field |
| StringParser.NoClosingQuote | src/parsers/string_parser.rs:20-28 | an opening quote with no quote after it means the line has no type field |
| StringParser.ClosingQuoteMeetsContract | src/parsers/string_parser.rs:21-27 | when the closing quote is found, the returned name is the type field and `bytes` is the line length |
| StringParser.ClosingQuoteFound | src/parsers/string_parser.rs:22-25 | the slice between the opening quote and the first quote after it is the line's type field, with no quote inside |
| StringParser.FieldMeetsContract | src/parsers/string_parser.rs:24-27 | a result carrying the type field's name and the line length meets the contract |
| StringParser.ParseExample | src/parsers/string_parser.rs:43-49 | the test line parses to `some_complicated_TYPE123` with `bytes` 61, its full length |
| StringParser.ExampleTypeField | src/parsers/string_parser.rs:44 | the test line's first marker is at 1, its opening quote at 8 and its name `some_complicated_TYPE123` |
| StringParser.ExampleNoMarker | src/parsers/string_parser.rs:53 | the marker `"type":` occurs nowhere in `{"message":"Hello, world!"}` |
| StringParser.ParseExampleNoType | src/parsers/string_parser.rs:52-56 | a line without the marker fails with `NoTypeParsed` |
| CharParser.FindChar | src/parsers/char_parser.rs:36-38 | the result is the first index holding the byte, with none before it, and `None` exactly when the byte is absent |
| CharParser.FindCharFrom | src/parsers/char_parser.rs:37 | the forward scan resumed at `start` finds the first match at or after `start`, given none before it |
| CharParser.FindCharIsFindSubsequence | src/parsers/char_parser.rs:36-38 | `find_char(h, c)` equals `find_subsequence(h, [c])` for every haystack and byte |
| CharParser.Parse | src/parsers/char_parser.rs:15-30 | `CharParser::parse` equals `StringParser::parse` on every line (same success or failure, same name, same length), so it meets the same byte-scan contract |
| CharParser.ParseAfterMarker | src/parsers/char_parser.rs:17-29 | with the marker at `index`, a returned name starts just after the first quote at or after the marker's end and runs, quote-free, up to the next quote; `bytes` is the line length |
| CharParser.ParseName | src/parsers/char_parser.rs:21-29 | with the opening quote at `startIndex`, the parse fails exactly when no quote follows it, and otherwise returns the quote-free bytes up to the next quote and the line length |
| CharParser.AfterMarkerAgrees | src/parsers/char_parser.rs:17-29 | after the marker, the two parsers take the same branch and give the same result |
| CharParser.NameAgrees | src/parsers/char_parser.rs:21-26 | from the opening quote on, the two parsers give the same result |
| CharParser.SameQuoteSearch | src/parsers/char_parser.rs:18-22 | the single-byte quote scan and the one-byte window search find the same index |
| CharParser.ParseExample | src/parsers/char_parser.rs:45-51 | the test line parses to `some_complicated_TYPE123` with `bytes` 61 |
| CharParser.ParseExampleNoType | src/parsers/char_parser.rs:54-58 | a line without the marker fails |
| Parsers.OccursSingle | src/parsers/string_parser.rs:33-35 | a one-byte needle occurs at `j` exactly when byte `j` is that byte |
| Parsers.TypeFieldUnique | src/parsers/string_parser.rs:15-27 | a line has at most one type field, so the name the contract admits is unique |
| ByteLines.RecordLen | src/summarizers/async_buf_reader/byte_lines.rs:27-48 | a first record is non-empty and no longer than the buffer. It holds no delimiter before its last byte and ends with the delimiter unless it reaches the end of the buffer |
| ByteLines.RecordLenUnique | src/summarizers/async_buf_reader/byte_lines.rs:38-44 | the first record's length is determined by the position of the first delimiter |
| ByteLines.LinesFlatten | src/summarizers/async_buf_reader/byte_lines.rs:27-48 | concatenating the records reproduces the buffer exactly |
| ByteLines.LinesWellFormed | src/summarizers/async_buf_reader/byte_lines.rs:30-44 | every record is non-empty and holds no delimiter before its last byte; every record but the last ends with the delimiter |
| ByteLines.LinesUnique | src/summarizers/async_buf_reader/byte_lines.rs:27-48 | the records are the only well-formed cut of the buffer: splitting a well-formed list's concatenation gives that list back |
| ByteLines.FirstRecord | src/summarizers/async_buf_reader/byte_lines.rs:38-44 | a delimiter-terminated record in front of more bytes is split off as the first record |
| ByteLines.LinesAllEndWithDelim | src/summarizers/async_buf_reader/byte_lines.rs:38-44 | when the buffer ends with the delimiter, so does every record |
| ByteLines.LinesAppend | src/summarizers/async_buf_reader/byte_lines.rs:27-48 | at a record boundary, the records of `a + b` are those of `a` followed by those of `b` |
| ByteLines.WellFormedAppend | src/summarizers/async_buf_reader/byte_lines.rs:30-44 | two well-formed record lists joined after a delimiter-terminated record are well formed |
| ByteLines.LinesStep | src/summarizers/async_buf_reader/byte_lines.rs:38-44 | cutting one record off the front leaves the records of the rest |
| ByteLines.New | src/summarizers/async_buf_reader/byte_lines.rs:12-19 | a fresh iterator is valid and will yield exactly the records of the buffer |
| ByteLines.YieldStep | src/summarizers/async_buf_reader/byte_lines.rs:30-44 | yielding the record that ends at `end` leaves exactly the records after it, and the iterator stays valid |
| ByteLines.Next | src/summarizers/async_buf_reader/byte_lines.rs:27-48 | the iterator step terminates and keeps `read_start <= read_end <= len`. It returns `None` exactly when the buffer is used up, and then leaves the iterator unchanged, so every later call returns `None` too. Otherwise it returns the next record as a contiguous slice, delimiter included, and leaves the rest |
| ByteLines.Collect | src/summarizers/async_buf_reader/byte_lines.rs:27-48 | driving the iterator to exhaustion yields exactly `Lines(delim, buf)`, in order |
| ByteLines.LinesEmpty | src/summarizers/async_buf_reader/byte_lines.rs:75-78 | an empty buffer has no records |
| ByteLines.LinesHelloWorld | src/summarizers/async_buf_reader/byte_lines.rs:67-72 | `hello\nworld\n` splits into `hello\n` and `world\n` |
| ByteLines.LinesNoEndNewline | src/summarizers/async_buf_reader/byte_lines.rs:81-85 | `hello` without a newline is one record, `hello` |
| BatchReader.LastDelim | src/summarizers/async_buf_reader/batch_reader.rs:53-65 | in a non-empty buffer, the result holds the delimiter with none after it, and is `None` exactly when the buffer holds no delimiter |
| BatchReader.LastDelimFrom | src/summarizers/async_buf_reader/batch_reader.rs:55-64 | the backwards scan from `i`, with no delimiter after `i`, finds the last delimiter at or before `i` |
| BatchReader.LastDelimIsLast | src/summarizers/async_buf_reader/batch_reader.rs:53-65 | any index holding the delimiter with none after it is the one the scan returns |
| BatchReader.LastDelimExample | src/summarizers/async_buf_reader/batch_reader.rs:73-74 | `Here's some text\nHere's some more` has its last newline at 16 |
| BatchReader.LastDelimLeadingExample | src/summarizers/async_buf_reader/batch_reader.rs:75-76 | `\nHere's some text` has its last newline at 0 |
| BatchReader.LastDelimNoneExamples | src/summarizers/async_buf_reader/batch_reader.rs:80-85 | a text without a newline, and one with an escaped two-byte `\n`, give `None` |
| BatchReader.New | src/summarizers/async_buf_reader/batch_reader.rs:16-23 | a fresh reader is valid, with an empty remainder, and has the whole stream pending |
| BatchReader.TopUpLen | src/summarizers/async_buf_reader/batch_reader.rs:35-38 | the top-up never reads past the stream and never fills the buffer beyond `buffer_size`, so `buffer_size - remainder.len()` cannot underflow |
| BatchReader.TopUpIsWindow | src/summarizers/async_buf_reader/batch_reader.rs:33-38 | the remainder topped up from the stream is the first `buffer_size` pending bytes, or all of them |
| BatchReader.ReadBatch | src/summarizers/async_buf_reader/batch_reader.rs:32-49 | "no data" leaves the reader unchanged. A returned batch is non-empty, at most `buffer_size` long and ends with the delimiter. The batch followed by the new pending bytes is the old pending bytes. The new remainder holds no delimiter |
| BatchReader.CutAfter | src/summarizers/async_buf_reader/batch_reader.rs:45-48 | truncating after the last delimiter gives a batch that is a prefix of the buffer with no delimiter after it, and a reader that has advanced past it |
| BatchReader.ReadBatchEndsIff | src/summarizers/async_buf_reader/batch_reader.rs:33-41 | `read_batch` reports no data exactly when the old remainder is empty and the read took no bytes (stream used up, or a zero buffer size) |
| BatchReader.ReadBatchPanicsIff | src/summarizers/async_buf_reader/batch_reader.rs:39-45 | the unwrap panics exactly when the topped-up buffer is non-empty and holds no delimiter |
| BatchReader.ReadBatchCutsWindow | src/summarizers/async_buf_reader/batch_reader.rs:45-47 | the batch is the topped-up buffer up to and including its last delimiter, and what is cut off holds no delimiter |
| BatchReader.ReadAll | src/summarizers/async_buf_reader/mod.rs:87-103 | the reader task's `while let` loop over `read_batch`: every batch of a completed read is non-empty, fits the buffer and ends with the delimiter. With a non-zero buffer size the batches put together are exactly the input |
| BatchReader.ReadAllStep | src/summarizers/async_buf_reader/mod.rs:87-103 | the reader task's loop stops on "no data", fails on a panic, and otherwise prepends the batch to the batches of the rest |
| BatchReader.PrependBatch | src/summarizers/async_buf_reader/batch_reader.rs:45-48 | one more batch in front keeps the batch properties and the concatenation |
| BatchReader.ReadAllCompletesIff | src/summarizers/async_buf_reader/batch_reader.rs:39-48 | with a non-zero buffer size, reading completes exactly when the input is empty or ends with the delimiter and no record is longer than the buffer |
| BatchReader.RecordsWithinBatch | src/summarizers/async_buf_reader/batch_reader.rs:35-38 | no record of a batch is longer than the buffer |
| BatchReader.FitsAfterBatch | src/summarizers/async_buf_reader/batch_reader.rs:46-47 | cutting off a delimiter-terminated batch that fits the buffer does not change whether the rest fits |
| BatchReader.FitsHasDelimiterInWindow | src/summarizers/async_buf_reader/batch_reader.rs:45 | when the input fits and is not used up, the topped-up buffer holds a delimiter, so the unwrap succeeds |
| BatchReader.UnterminatedTailPanics | src/summarizers/async_buf_reader/batch_reader.rs:39-45 | a non-empty input whose last byte is not the delimiter is never read to completion: its tail ends in the unwrap panic |
| BatchReader.ZeroBufferSizeReadsNothing | src/summarizers/async_buf_reader/batch_reader.rs:35-41 | with a zero buffer size the first call reports no data, so no batch is ever returned |
| SyncParserError.Default | src/summarizers/sync_buf_reader/parser_error.rs:4-8 | the default tally has no failed lines |
| SyncParserError.TotalErrors | src/summarizers/sync_buf_reader/parser_error.rs:33-35 | the number of failed lines is the length of the line list |
| SyncParserError.Accumulate | src/summarizers/sync_buf_reader/parser_error.rs:25-27 | the line number is appended after all earlier ones, and the count grows by one |
| SyncParserError.Combine | src/summarizers/sync_buf_reader/parser_error.rs:29-31 | our lines come first and the other's after. The counts add up, and the multiset of lines is the union |
| SyncParserError.CombineMonoid | src/summarizers/sync_buf_reader/parser_error.rs:29-31 | merging is associative and the default tally is its unit on both sides |
| SyncParserError.CombineOrderMatters | src/summarizers/sync_buf_reader/parser_error.rs:29-31 | merging line lists is not commutative |
| AsyncParserError.Default | src/summarizers/async_buf_reader/parser_error.rs:3-8 | the default tally counts zero |
| AsyncParserError.TotalErrors | src/summarizers/async_buf_reader/parser_error.rs:29-31 | the number of failed lines is the count |
| AsyncParserError.Accumulate | src/summarizers/async_buf_reader/parser_error.rs:21-23 | the count grows by the given number |
| AsyncParserError.Combine | src/summarizers/async_buf_reader/parser_error.rs:25-27 | merging adds the counts |
| AsyncParserError.CombineCommutativeMonoid | src/summarizers/async_buf_reader/parser_error.rs:25-27 | merging counts is commutative and associative, with the default as unit |
| Summaries.DefaultErrors | src/summary.rs:72 | the default tally of either kind reports zero errors |
| Summaries.AccumulateError | src/summary.rs:143 | registering keeps the tally's kind. A line list grows by one entry and a count grows by the given number |
| Summaries.CombineErrors | src/summary.rs:145 | merging two tallies of the same kind adds their totals |
| Summaries.TotalErrors | src/summary.rs:147 | `total_errors` of the chosen tally: the length of the line list, or the count |
| Summaries.AddTo | src/summary.rs:114-121 | the name's entry grows by the bytes and is created at that value when absent. No other entry changes |
| Summaries.CombineMaps | src/summary.rs:127-130 | each key of either map gets the sum of its values in both, a missing key counting 0 |
| Summaries.New | src/summary.rs:69-74 | the new summary has an empty type map and a default tally with zero errors |
| Summaries.RegisterError | src/summary.rs:76-78 | registering an error leaves the type map unchanged and adds to the error total |
| Summaries.Accumulate | src/summary.rs:111-123 | the record's bytes are added to its type's entry, which is inserted if absent. All other entries and the errors are unchanged |
| Summaries.Combine | src/summary.rs:126-132 | each type gets the sum of its sizes in both summaries, and the error totals add |
| Summaries.CombineInPlace | src/summary.rs:126-132 | the in-place loop over the other map's entries, in any visiting order, produces the key-wise sum |
| Summaries.MapsEqual | src/summary.rs:14 | two type maps with the same keys and the same entries are equal |
| Summaries.CombineMapsEmpty | src/summary.rs:127-130 | merging an empty map changes nothing |
| Summaries.MoveEntry | src/summary.rs:127-130 | moving one entry of the other map into ours keeps the key-wise sum, which is the loop invariant of the merge |
| Summaries.SplitEntry | src/summary.rs:127-130 | the key-wise sum with a map is the sum without one of its entries, with that entry then added |
| Summaries.SumValuesRemove | src/summary.rs:81-83 | the sum of the map's values can be split at any key |
| Summaries.SumValuesAddTo | src/summary.rs:111-123 | adding bytes to one entry raises the value sum by those bytes |
| Summaries.TotalSize | src/summary.rs:81-83 | `total_size` is the sum of the map's values: no entry exceeds it, and an empty map has total size 0 |
| Summaries.EntriesWithinSum | src/summary.rs:81-83 | every entry of the type map is at most the sum of its values |
| Summaries.TotalSizeNew | src/summary.rs:69-83 | a new summary has total size 0 |
| Summaries.TotalSizeAccumulate | src/summary.rs:111-123 | `accumulate` raises the total size by exactly the record's bytes, and `register_error` leaves it unchanged |
| Summaries.SumValuesCombine | src/summary.rs:126-130 | the value sum of the key-wise sum is the sum of the value sums |
| Summaries.TotalSizeCombine | src/summary.rs:126-132 | `total_size(a.combine(b)) == total_size(a) + total_size(b)` |
| Summaries.CombineCommutative | src/summary.rs:126-132 | merging summaries with counting tallies is commutative |
| Summaries.CombineAssociative | src/summary.rs:126-132 | merging is associative, for either kind of tally |
| Summaries.CombineSwap | src/summary.rs:126-132 | of three merges of counted summaries, the last two can be swapped |
| Summaries.CombineNewLeft | src/summary.rs:126-132 | a new summary is the left unit of merging |
| Summaries.AccumulateCombine | src/summary.rs:111-132 | accumulating into a merge is accumulating into its right operand, and so is registering an error |
| Summaries.AccumulateCombineCounts | src/summary.rs:111-130 | the type-map half of `AccumulateCombine` |
| Summaries.RegisterErrorCombine | src/summary.rs:126-132 | the error half of `AccumulateCombine` |
| SyncSummarizer.SyncFold | src/summarizers/sync_buf_reader/mod.rs:53-59 | a fold over records, numbered from zero, keeps a per-line tally |
| SyncSummarizer.Step | src/summarizers/sync_buf_reader/mod.rs:53-58 | a parsed record adds its bytes to its type's entry and changes nothing else; a rejected record leaves the type map and appends its line number to the failed lines |
| SyncSummarizer.ReadUntil | src/summarizers/sync_buf_reader/mod.rs:49-52 | the read is empty exactly at the end of the input. Otherwise it is the next bytes up to and including the first delimiter, or up to the end |
| SyncSummarizer.Summarize | src/summarizers/sync_buf_reader/mod.rs:36-63 | the loop stops when a read returns nothing. The summary is the fold over exactly the records `ByteLines` yields for the input, numbered from zero |
| SyncSummarizer.ReadRecord | src/summarizers/sync_buf_reader/mod.rs:49-60 | one record read at a record start is the next record of the input, and the summary takes one step with its line number |
| SyncSummarizer.LinesSnoc | src/summarizers/sync_buf_reader/mod.rs:49-60 | the records read so far, followed by the one just read, are the records of the longer prefix |
| SyncSummarizer.RecordEnd | src/summarizers/sync_buf_reader/mod.rs:49 | after reading up to a delimiter, or to the end, the next read starts a record |
| SyncSummarizer.SingleRecord | src/summarizers/sync_buf_reader/mod.rs:49 | a chunk from `read_until` splits into exactly one record, itself |
| SyncSummarizer.SyncFoldSnoc | src/summarizers/sync_buf_reader/mod.rs:53-59 | one more record is one more step, numbered with the count of records before it |
| SyncSummarizer.SyncTotalSize | src/summarizers/sync_buf_reader/mod.rs:53-58 | the total size is the sum of `bytes` over the records the parser accepts |
| SyncSummarizer.SyncTypeCounts | src/summarizers/sync_buf_reader/mod.rs:53-58 | each type's entry holds the bytes of its records, and a type has an entry exactly when some record parsed to it |
| SyncSummarizer.SyncErrorLines | src/summarizers/sync_buf_reader/mod.rs:44-59 | the failed line numbers are exactly the zero-based indices of the rejected records, strictly increasing. There is one per rejected record, so `total_errors` is the number of failures |
| SyncSummarizer.ErrorLinesSnoc | src/summarizers/sync_buf_reader/mod.rs:57-59 | one more record adds its own index to the failed lines exactly when it is rejected |
| SyncSummarizer.ListsFailuresSnoc | src/summarizers/sync_buf_reader/mod.rs:57-59 | appending the last index when the last record fails keeps the list exactly the failures |
| SyncSummarizer.SyncSizeAccounting | src/summarizers/sync_buf_reader/mod.rs:53-58 | for a parser reporting full record lengths, total size plus the rejected records' bytes is the file size |
| AsyncSummarizer.AsyncFold | src/summarizers/async_buf_reader/mod.rs:91-98 | a mapper's fold keeps a counting tally |
| AsyncSummarizer.Step | src/summarizers/async_buf_reader/mod.rs:93-97 | a parsed record adds its bytes to its type's entry and changes nothing else; a rejected record leaves the type map and counts one more failure |
| AsyncSummarizer.AsyncFoldSnoc | src/summarizers/async_buf_reader/mod.rs:92-97 | one more record is one more mapper step |
| AsyncSummarizer.Mapper | src/summarizers/async_buf_reader/mod.rs:90-102 | a mapper that walks a batch with the `ByteLines` iterator returns the fold over exactly the batch's records, in order |
| AsyncSummarizer.MapAll | src/summarizers/async_buf_reader/mod.rs:87-102 | one mapper summary per batch, each the fold of that batch's records |
| AsyncSummarizer.Reduce | src/summarizers/async_buf_reader/mod.rs:114-120 | the reducer's merge of counted summaries keeps a counting tally |
| AsyncSummarizer.CombineNewRight | src/summary.rs:126-132 | a new summary is the right unit of merging counted summaries |
| AsyncSummarizer.AsyncFoldAppend | src/summarizers/async_buf_reader/mod.rs:91-98 | folding two record lists in a row is merging their separate folds |
| AsyncSummarizer.StepCombine | src/summarizers/async_buf_reader/mod.rs:93-97 | a mapper step after a merge is the step on the right operand |
| AsyncSummarizer.ReduceMapAll | src/summarizers/async_buf_reader/mod.rs:87-120 | reducing the mappers' summaries of delimiter-aligned batches, in batch order, is one fold over the records of the batches put together |
| AsyncSummarizer.MapAllSnoc | src/summarizers/async_buf_reader/mod.rs:87-102 | mapping one more batch is merging one more summary |
| AsyncSummarizer.FlattenAlignedEnds | src/summarizers/async_buf_reader/mod.rs:87 | delimiter-aligned batches put together end with the delimiter |
| AsyncSummarizer.ReduceSnoc | src/summarizers/async_buf_reader/mod.rs:116-118 | receiving one more summary is one more merge |
| AsyncSummarizer.RemoveCounted | src/summarizers/async_buf_reader/mod.rs:116-118 | removing a summary keeps the rest counted |
| AsyncSummarizer.ReduceRemove | src/summarizers/async_buf_reader/mod.rs:116-118 | the reduction is the reduction of the others merged with any one summary |
| AsyncSummarizer.MultisetRemove | src/summarizers/async_buf_reader/mod.rs:116-118 | removing one element removes it from the multiset of arrivals |
| AsyncSummarizer.ReducePermutation | src/summarizers/async_buf_reader/mod.rs:116-118 | any two arrival orders of the same summaries reduce to the same result |
| AsyncSummarizer.AsyncAgreesWithSync | src/summarizers/async_buf_reader/mod.rs:92-97 | counting failures and numbering them give the same type map and the same error total |
| AsyncSummarizer.Summarize | src/summarizers/async_buf_reader/mod.rs:57-131 | a zero batch size makes the reader task panic on the division at line 86, so the run fails. The run completes exactly when the batch size is non-zero and the file fits; it then gives the one-pass fold over the file's records, and the same type map and error total as the line-by-line summarizer |
| AsyncSummarizer.ReadAllIsOnePass | src/summarizers/async_buf_reader/mod.rs:87-120 | with a non-zero batch size the reader completes exactly when the file fits, and the reduced mapper summaries of its batches are the one-pass fold over the file's records |
| AsyncSummarizer.ReduceAnyOrder | src/summarizers/async_buf_reader/mod.rs:112-120 | whatever order the mappers' summaries arrive in, the reducer's result is the one-pass fold over the file's records |
| Bytes.FlattenAppend | src/summarizers/async_buf_reader/mod.rs:87-92 | flattening distributes over concatenation of record lists |
| Bytes.FlattenCons | src/summarizers/async_buf_reader/mod.rs:87-92 | flattening a record in front of a list is that record followed by the flattened list |
| Bytes.FlattenPartLength | src/summarizers/async_buf_reader/batch_reader.rs:35-38 | each part is no longer than the flattening it belongs to |

## Left out

- File I/O: `File::open`, `metadata`, `BufReader::read_until`, and
  `AsyncRead::take/read_to_end` are replaced by an in-memory byte sequence with
  a read position. I/O errors are not modelled, since an in-memory read cannot
  fail.
- The batch reader never delivers bytes after the last delimiter. The unwrap
  of `last_delim` (src/summarizers/async_buf_reader/batch_reader.rs:45)
  panics whenever the topped-up buffer is non-empty and holds no delimiter.
  That happens for a file that does not end with the delimiter and for a
  record longer than the batch size; the comment above it (lines 42-44)
  names growing the buffer as the intended remedy for the latter. The model
  has this panic as the outcomes `NoDelimiterPanic` and `ReaderPanicked`,
  with `UnterminatedTailPanics` and `ReadAllCompletesIff`.
- With a batch size of 0, `read_batch` on its own returns "no data" at once
  (`BatchReader.ZeroBufferSizeReadsNothing`), but the summarizer never gets
  that far: the reader task first divides the file length by the batch size
  to preallocate its handle list (src/summarizers/async_buf_reader/mod.rs:86)
  and panics. `AsyncSummarizer.Summarize` has this as `ReaderPanicked`. This
  is modelled as the code behaves, not excluded by a precondition.
- The tokio runtime, the spawned tasks and their joins, the mpsc channel, its
  capacity and backpressure, and the size of the `Vec::with_capacity`
  preallocation (only its division by the batch size is modelled). The
  reducer instead receives any ordering of the mappers' summaries
  (`ReduceAnyOrder`).
- The sync summarizer's buffer `capacity` only sizes an allocation and does not
  change any result, so it is not a parameter. The `buf.clear()` after each
  record is the fresh `buf` of each loop iteration.
- `JsonParser` and `RegexParser`: thin wrappers over serde_json and the regex
  crate. The regex parser does not agree with the byte-scan parsers (it allows
  whitespace after the colon and needs a non-empty name), and no agreement is
  claimed.
- Rendering: `Display`, `print`, `to_json` and `display_error` /
  `red_stderr_line`. These are formatting and coloured output only.
- `usize` overflow in counters and sizes: every count is an unbounded `nat`.
- StringParser.FindSubsequence: requires a non-empty needle. The source's
  `windows(0)` panics, and both callers pass a non-empty needle.
- BatchReader.LastDelim: requires a non-empty buffer. The source computes
  `buf.len() - 1` first, which underflows on an empty buffer, and its only
  caller has already returned on an empty buffer.
- Summaries.Combine: requires both summaries to carry the same kind of tally,
  as the source's generic `Summary<E>` enforces through its types.
- Summaries.CombineCommutative: proved for counting tallies only. Merging
  line-number lists is not commutative (`SyncParserError.CombineOrderMatters`),
  although their multiset is. The reducer only ever merges counting tallies.
