# Green taxi CSV cleaning and the derived-column query

This project models, in Dafny, the core of a two-part data-engineering
exercise on the New York City TLC "green taxi" trip data for 2013-09.

* **Part 1 (`01.py`)** reads the raw CSV stream with `read_green_taxi_csv`.
  * It checks the header line against the 20 expected column names.
  * It skips the whitespace-only lines that follow the header.
  * It cuts every data line down to its first 20 fields with the regular
    expression `PATTERN_DATA`.
  * It writes each cleaned record, followed by LF, to a sink.
  * A wrong header raises `InvalidHeaderError(line)`. A data line that does
    not match raises `InvalidDataError(line)`.
  * The cleaned text is then decoded by `parse_green_taxi_csv`, using the
    column types declared in `SCHEMA`:
    * 16-bit integers;
    * `Y`/`N` booleans;
    * `%Y-%m-%d %H:%M:%S` timestamps;
    * exact decimals at scales 15 and 2;
    * the empty token as null.
* **Part 2 (`02.py`)** builds the Spark SQL text with `build_query`.
  * Two counted loops write the one-hot `CASE` clauses for the pickup hour
    (24 of them) and the pickup day of week (7 of them) into buffers.
    A `,\n` separator goes between clauses.
  * Fixed duration and JFK-airport fragments follow.
  * Everything is filled into a dedented template that ends with the table
    alias.

The modules follow that structure:

* `Wrappers`: the `Option` type.
* `Buffers`: a growable text buffer, which stands for the binary sink and for
  `StringIO`.
* `Digits`: decimal digit strings and their values.
* `Text`: `rstrip`, `split`, `join`, counting, and the line structure of a
  stream as `readline` sees it.
* `Config`: `HEADER`, the logical types and `SCHEMA`.
* `Records`: the normalizer.
  * `Normalize` is the function that specifies a whole run.
  * The `ReadGreenTaxiCsv`, `SkipBlankLines` and `CopyRecords` methods write
    to a `Buffer` and are proved against it.
* `Cells`: the token rules and the decoding of the cleaned text into rows.
* `Query`: `build_query`.
  * The `OneHot` and `BuildQuery` methods are proved against the `Fragment`
    and `QueryText` functions.

Bytes are modelled as characters. The stream is the string `data`, split into
lines the way `readline` splits it: each line keeps its LF, and the last line
may lack one. An exception raised by the normalizer is modelled as the returned
`Outcome`: `Ok`, `InvalidHeader(line)` or `InvalidData(line)`.

## Model

| member | source | states |
|---|---|---|
| Config.HEADER | 01.py:26-47 | Definition: the 20 expected column names, in order. |
| Config.SCHEMA | 01.py:113-150 | Definition: the 20 columns with their logical types (int16, local timestamp, boolean, decimal (18,15), (17,15), (4,2), (6,2)). |
| Config.Names | 01.py:223 | Definition: `SCHEMA.names`, one name per column in column order. `SchemaMatchesHeader` and `SchemaNamesRejectedAsHeader` state what it yields. |
| Config.SchemaMatchesHeader | 01.py:26-47 | `HEADER` and `SCHEMA` both have 20 entries. The schema's names equal the header's except at index 2, where `Lpep_dropoff_datetime` becomes `lpep_dropoff_datetime`. |
| Config.HeaderNamesCommaFree | 01.py:26-47 | No header name contains a comma, so splitting the joined header gives back the 20 names. |
| Config.HeaderNamesDistinct | 01.py:26-47 | The 20 header names are pairwise distinct. |
| Config.DecimalColumnsWellFormed | 01.py:116-147 | Every decimal column's scale is at most its precision, and exactly the four coordinate columns keep 15 fractional digits. |
| Records.Extract | 01.py:156 | `PATTERN_DATA.match(line).group(1)`. A match is a non-empty prefix of the line that does not end in CR or LF; no match is `None`. Its partners are `ExtractByFields`, `ExtractSucceedsIff` and `ExtractIdempotent`. |
| Records.HeaderMatches | 01.py:184 | Definition: `line.rstrip().split(',') == HEADER`. Its partner is `HeaderAcceptedIff`. |
| Records.SkipBlank | 01.py:188-195 | The index returned is at or after the start, every line passed over is whitespace-only, and the line at the index, if any, is not. |
| Records.CleanData | 01.py:199-204 | The data loop as a function: it ends with `Ok` or `InvalidData`, and its output is empty or ends in LF. Its partners are `CleanDataOkIff`, `FirstFailure` and `CleanDataRecords`. |
| Records.Normalize | 01.py:167-204 | Definition of a whole run: a wrong header gives `InvalidHeader(first line)` and no output; otherwise the data loop runs on the lines after the blank ones. Its partners are `HeaderRejection`, `NormalizeOk` and `NormalizeIdempotent`. |
| Records.FieldCountIsHeaderLength | 01.py:156 | The pattern's field count is `len(HEADER)`, which is also the schema's length (20). |
| Records.TailLengthFirst | 01.py:156 | The final `[^,\r\n]*` run holds no comma, CR or LF. |
| Records.TailLengthUnique | 01.py:156 | That run is the longest one: any stop-free prefix that ends at a stop byte or at the end is that run. |
| Records.SkipFieldsStep | 01.py:156 | One repetition of `(?:[^,]*,)` consumes exactly the text up to and including the first comma. |
| Records.SkipFieldsSplit | 01.py:156 | The 19 repetitions succeed exactly when the line has more than 19 `split(',')` fields. They then cover the first 19 fields, each with its comma, and leave the others joined by commas. |
| Records.SkipFieldsLocal | 01.py:156 | The match depends only on the part of the line that it covers. |
| Records.MatchEndsBeforeLineEnd | 01.py:156 | A match never ends in CR or LF. |
| Records.ExtractByFields | 01.py:156 | The captured group is the first 19 fields of the line verbatim, then the 20th cut at its first CR or LF, all joined by commas. With fewer than 20 fields there is no match. |
| Records.ExtractSucceedsIff | 01.py:156 | A data line matches if and only if it holds at least 19 commas. |
| Records.CleanedRecordShape | 01.py:156 | A cleaned record splits into exactly 20 fields, the first 19 being the line's own, so it holds exactly 19 commas. It holds no LF when the line holds none before its end. |
| Records.ExtractIdempotent | 01.py:156 | Matching a cleaned record again, alone or followed by text starting with a comma, CR or LF, yields the record unchanged. |
| Records.BlankLineRejected | 01.py:199-202 | A whitespace-only line never matches, so a blank line among the data lines ends the run with `InvalidData`. |
| Records.HeaderAcceptedIff | 01.py:184 | The header is accepted exactly when the rstripped first line is the 20 names joined by commas, with the same names, order and case. |
| Records.SchemaNamesRejectedAsHeader | 01.py:129-150 | A first line spelled with the schema's names (lower-case dropoff) is rejected. |
| Records.EmptyHeaderRejected | 01.py:183-185 | An empty stream (`readline` returns `""`) fails the header check. |
| Records.HeaderRejection | 01.py:183-185 | The run ends with `InvalidHeader` if and only if the header check fails. It then carries the raw first line and nothing is written. For an empty stream it carries `""`. |
| Records.NormalizeBadHeader | 01.py:184-185 | Step lemma: `Normalize` unfolded on a wrong first line, giving `InvalidHeader(line)` with empty output. |
| Records.OnlyBlankLinesAfterHeader | 01.py:188-195 | When only whitespace-only lines follow a valid header, the run returns normally with nothing written. |
| Records.NormalizeOk | 01.py:183-204 | A run that ends normally read a matching header and wrote exactly the cleaning of the lines after the skipped blank ones. |
| Records.CleanDataSnoc | 01.py:199-204 | Step lemma: the data loop's body on one more line. A failed run stays as it is; a running run fails with that line or appends its record and LF. |
| Records.CleanDataStops | 01.py:199-202 | Once a data line has failed, later lines change neither the output nor the outcome. |
| Records.CleanDataOkIff | 01.py:199-202 | The data loop ends normally if and only if every data line matches. |
| Records.FirstFailure | 01.py:199-202 | At the first data line that does not match, the run ends with `InvalidData(that line)`. The output is exactly what the preceding lines produced, and that prefix ran normally. |
| Records.CleanDataRecords | 01.py:199-204 | On normal completion, the output read back line by line has one line per data line, in input order. Each is that line's match followed by LF. |
| Records.CleanDataIdempotent | 01.py:199-204 | Cleaning the lines of a successful output again reproduces the same output and outcome. |
| Records.FirstRecordNotBlank | 01.py:188-195 | A non-empty output starts with a record, which is not whitespace-only, so a second run skips no line of it. |
| Records.NormalizeHeaderThen | 01.py:183-199 | After a valid header line, text that is empty or starts with a non-blank line is cleaned line by line. |
| Records.NormalizeIdempotent | 01.py:167-204 | Normalizing a valid header followed by the output of a successful run writes that output again and ends normally. |
| Records.EmptyOnlyAtEnd | 01.py:190-195 | `readline` returns the empty string only at end of stream. |
| Records.NormalizeAt | 01.py:186-199 | Step lemma: `Normalize` unfolded after a matching header, giving the cleaning of the lines from the first non-blank one on. |
| Records.SkipBlankStep | 01.py:191-193 | Step lemma for the skip loop: skipping a whitespace-only line does not change where the skip ends. |
| Records.CleanDataExtendOk | 01.py:200-204 | Step lemma for the data loop: on a line that matches, its record and LF are appended and the run continues. |
| Records.CleanDataExtendFail | 01.py:200-202 | Step lemma for the data loop: on a line that does not match, the run ends with that line and the output so far. |
| Records.CleanDataFailAt | 01.py:201-202 | Lines after the failing one are not looked at. |
| Records.ReadGreenTaxiCsv | 01.py:167-204 | `read_green_taxi_csv`: the outcome is `Normalize(data)`'s. The sink afterwards holds its old contents followed by exactly `Normalize(data)`'s output. |
| Records.SkipBlankLines | 01.py:188-195 | The `while True` skip loop stops at the first non-blank line after the header, or at end of stream. |
| Records.CopyRecords | 01.py:199-204 | The `for` loop appends exactly the cleaning of the remaining lines to the sink and returns its outcome. |
| Cells.ParseInt | 01.py:113 | The int16 column's reading of a token: an accepted token is non-empty, and a negative value comes from a token starting with `-`. |
| Cells.ParseIntToString | 01.py:113 | An integer written in decimal reads back as itself. |
| Cells.IntToStringInjective | 01.py:113 | Distinct integers have distinct decimal texts. |
| Cells.ParseDecimal | 01.py:116-119 | A decimal column's reading of a token as a mantissa at the column's scale: an accepted token is non-empty, and a negative mantissa comes from a token starting with `-`. Its partners are `ParseFormatDecimal` and `FormatParseDecimal`. |
| Cells.ReadDigitsExact | 01.py:116-119 | Step lemma: whole digits and exactly `scale` fractional digits read as `Shift(whole, scale) + frac`. |
| Cells.ReadUnsignedParts | 01.py:116-119 | An unsigned token is read at its first point. |
| Cells.ReadUnsignedDecimal | 01.py:116-119 | The unsigned text of a magnitude at a scale reads back as that magnitude. |
| Cells.ParseFormatDecimal | 01.py:88-119 | A decimal mantissa written with exactly `scale` fractional digits reads back as the same mantissa, exactly, with no binary rounding. |
| Cells.FormatParseDecimal | 01.py:88-119 | Token-first round trip: a token made of an optional `-`, a canonical whole part and exactly `scale` fractional digits (not negative zero) is read as the mantissa ±(whole·10^scale + frac). That mantissa is written back as the same token. |
| Cells.ParseTimestamp | 01.py:218 | An accepted token is 19 bytes long and reads as a valid wall-clock time. Its partners are `ParseFormatTimestamp` and `FormatParseTimestamp`. |
| Cells.FormatTimestampFields | 01.py:218 | A formatted timestamp has its six numbers and its separators `-`, `-`, space, `:`, `:` at fixed offsets. |
| Cells.ParseFormatTimestamp | 01.py:218 | A valid wall-clock time, formatted by `%Y-%m-%d %H:%M:%S`, reads back as itself. |
| Cells.FormatParseTimestamp | 01.py:218 | Every token the timestamp rule accepts is the formatting of what it reads. |
| Cells.ConvertCell | 01.py:214-221 | A rejected token is reported with its column type and the token itself. |
| Cells.NullIff | 01.py:217 | In every column the empty token, and only it, is null, never zero or false. |
| Cells.BoolIff | 01.py:216-219 | A boolean column reads `Y` as true and `N` as false. Every other non-empty token is an error. |
| Cells.SmallIntRange | 01.py:113 | An integer column yields only values in [-32768, 32767], and reads every such value from its decimal text. |
| Cells.DecimalExact | 01.py:88-119 | A decimal cell is a mantissa that fits the precision. Every mantissa that fits is read exactly from its text at the column's scale. |
| Cells.LongitudeExample | 01.py:94-116 | `-73.952407836914062` in a longitude column is the mantissa -73952407836914062 at scale 15, and that mantissa formats back to the token. |
| Cells.TimestampIff | 01.py:218 | A timestamp column accepts exactly the 19-byte formattings of valid wall-clock times. |
| Cells.ConvertCellRule | 01.py:214-221 | A non-empty token is rejected exactly when it does not read as its column's type. Integers must also fit 16 bits, booleans must be `Y` or `N`, and decimals must also fit the precision. An accepted token gives the value it reads as. |
| Cells.ConvertCellTyped | 01.py:214-221 | Every value a column accepts is null or of that column's type and range, so columns are homogeneous. |
| Cells.IntegerRejection | 01.py:113 | The integer column rejects 99999, which lies beyond 16 bits. |
| Cells.DistanceMantissa | 01.py:105-118 | The token 100.00, read at the distance's scale 2, is the mantissa 10000. |
| Cells.DistanceRejection | 01.py:105-118 | The distance column rejects 100.00, which has three integral digits where precision 4 and scale 2 leave two. |
| Cells.ConvertCells | 01.py:214-223 | A decoded row has one value per remaining column. A cell error names a column within range and a rejected token. |
| Cells.ConvertRecord | 01.py:221-223 | A record is refused for its width exactly when its `,` split does not give one token per schema column, and the error reports the width found. Quoting is off, so every comma separates. |
| Cells.ConvertCellsColumns | 01.py:214-223 | Column k of a decoded row is column k's type rule applied to token k. |
| Cells.ConvertCellsFirstError | 01.py:214-223 | A row is rejected at the first column whose token its type rejects. All earlier columns convert. |
| Cells.CleanedRecordWidth | 01.py:223 | A record with 19 commas always has schema width. |
| Cells.RecordLineWidth | 01.py:203-223 | A record the normalizer writes, read back from its output line, has schema width. |
| Cells.ConvertLines | 01.py:227-232 | Rows decoded in order: a failure names a row index within range and a row that did not decode. |
| Cells.ConvertLinesOrder | 01.py:227-232 | Row k of a decoded table is line k's decoded record. A failure names the first line that does not decode, together with that line's own error. |
| Cells.ParseCleaned | 01.py:227-232 | Definition: `read_csv` on the cleaned text, with no header row; each line is decoded without its LF. |
| Cells.ConvertLinesShape | 01.py:227-232 | Lines of schema width decode into one row per line, or fail only on a cell. |
| Cells.NormalizedOutputDecodes | 01.py:199-232 | The output of a successful cleaning run decodes into exactly one row per data line. It can fail only on a cell's token, never on the column count. |
| Query.Clause | 02.py:41-44 | Definition: the f-string `CASE WHEN func(lpep_pickup_datetime) = k THEN 1 ELSE 0 END AS alias` + k. |
| Query.Fragment | 02.py:38-46 | Definition: the clauses for 0 .. count-1 joined by `,\n`. Its partners are `OneHot` (the loop that builds it) and `FragmentLines`. |
| Query.Clauses | 02.py:40-44 | Definition: the clause list for 0 .. count-1, in order. Its ensures only expose that definition. The claims about clause content are carried by `FragmentLines`, `HourFragmentShape`, `DowFragmentShape` and `ClauseInjective`. |
| Query.OneHot | 02.py:38-65 | The counted loop writes the clauses for 0 .. count-1 joined by `,\n`, with no separator after the last. |
| Query.ClauseInjective | 02.py:41-44 | Clauses for different values are different texts. |
| Query.ClausesHaveNoNewline | 02.py:41-44 | No clause contains a line end, so the only line ends are the separators. |
| Query.FragmentLines | 02.py:38-46 | A fragment of count clauses has count lines: clause k followed by `,\n` for k < count-1, then the last clause alone. That is exactly count-1 line ends. |
| Query.HourFragmentShape | 02.py:38-46 | The hour fragment is 24 clauses for hours 0..23 in ascending order (`HOUR(lpep_pickup_datetime) = k`, alias `Pickup_hour_is_k`), with 23 separators and none trailing. |
| Query.DowFragmentShape | 02.py:57-65 | The day-of-week fragment is 7 clauses for 0..6 (`DAYOFWEEK`, alias `Pickup_dow_is_k`), with 6 separators and none trailing. |
| Query.DURATION | 02.py:73-76 | Definition: the dropoff time cast to epoch seconds, minus the pickup time cast the same way, aliased `Duration_seconds`. |
| Query.InBox | 02.py:90-93 | Definition: the test that a side's longitude and latitude lie between the fixed bounds. |
| Query.Jfk | 02.py:89-95 | Definition: the pickup box test OR the dropoff box test. Both are built by `InBox` from the same four bound constants. |
| Query.Template | 02.py:22-30 | Definition: the dedented template with its five fields in place. Its partner is `TemplateLayout`. |
| Query.QueryText | 02.py:97-103 | Definition: the template filled with the two fragments, `DURATION`, `Jfk()` and the alias. |
| Query.BuildQuery | 02.py:17-103 | `build_query` returns the template filled with the two loop-built fragments, the duration and JFK fragments, and the alias. |
| Query.TemplateLayout | 02.py:22-103 | The filled template starts with `SELECT\n*,\n` followed by the hour fragment. The table alias ends the text, inserted verbatim. |
| Text.RStrip | 01.py:184 | `rstrip`: a prefix of the text that does not end in whitespace, and everything it drops is whitespace. |
| Text.Split | 01.py:184 | `split`: at least one field. Its partners are `SplitLength`, `JoinSplit` and `SplitJoin`. |
| Text.Lines | 01.py:183-199 | Definition: the successive `readline` results up to end of stream. Its partners are `LinesConcat` and `LinesShape`. |
| Text.SplitJoin | 01.py:184 | Splitting a non-empty list of parts joined by a separator none of them contains gives the parts back. |
| Text.SplitFieldsSepFree | 01.py:184 | No field `split` yields contains the separator. |
| Text.JoinSplit | 01.py:184 | Joining the `split` fields with the separator gives the text back. |
| Text.SplitLength | 01.py:184 | `split` yields one more field than there are separators. |
| Text.LinesConcat | 01.py:183-199 | The lines `readline` returns, concatenated, are the whole stream. |
| Text.LinesShape | 01.py:183-199 | Every line is non-empty and ends with its only LF, except possibly the last. |
| Text.LinesOfJoin | 02.py:45-46 | Texts without LF joined by `,\n` read back as those texts, each but the last followed by `,\n`. |
| Digits.ValueOfNatToString | 02.py:42-43 | The decimal text of a natural number has that value. |
| Digits.NatToStringInjective | 02.py:42-43 | Distinct numbers have distinct decimal texts. |
| Digits.NatToStringOfValue | 01.py:116-119 | A canonical digit string is the text of its value. It gives back the whole part of a decimal token in `FormatParseDecimal`. |
| Digits.ValueOfPadDigits | 01.py:218 | A number below 10^w, zero-padded to w digits, has that value. |
| Digits.PadDigitsOfValue | 01.py:218 | A fixed-width digit string is the zero-padded text of its value. |
| Digits.PadDigitsSplitsNumber | 01.py:116-119 | The last w digits of a number and the number with them dropped recompose the number. |
| Digits.ShiftIsProduct | 01.py:116-119 | The decimal shift used for mantissas is multiplication by 10^k. |
| Digits.ShiftSplits | 01.py:116-119 | When f < 10^k and f is written as the k low digits below v, dropping those digits gives v back, and padding to k digits gives f's digits. |

## Left out

- Fetching the URL with `smart_open` (01.py:180) is left out. The stream is the string `data`.
- The `tell`/`seek` pushback (01.py:189-192) is modelled by continuing from the index of the first non-blank line.
- UTF-8 decoding of the header (01.py:184) is not modelled. Characters stand for bytes, and `rstrip` strips ASCII whitespace.
- `Records.Extract`: the regex's backtracking is not modelled, since the pattern has only one way to match. A CR or LF inside the first 19 fields is kept, as the pattern keeps it.
- pyarrow's `read_csv` itself is not part of this model: threading, block parsing, and the CSV row splitting of a CR inside a field. Only the token rules its options declare are modelled. An empty line decodes here as a row of the wrong width, where `read_csv` skips it by default (`ignore_empty_lines`); the normalizer never writes an empty line.
- `Cells.ParseDecimal` accepts only an optional `-`, digits, and an optional point followed by digits. pyarrow's other decimal spellings (`+`, exponents, a leading point) are not modelled. Fractional digits beyond the scale are accepted only when they are zeros.
- `Cells.ParseTimestamp` accepts only the fixed widths (4-digit year, 2 digits elsewhere) and does not check calendar validity (a 31st of February). `strptime`'s looser digit widths are not modelled.
- `Cells.ConvertCell` gives the wall-clock time read, not the UTC instant. Conversion from America/New_York to UTC needs the time zone database.
- Writing the Parquet file and its physical type widths (01.py:50-59, 235-239) are left out. So are both `main` functions (01.py:242 on; 02.py:106-138), which are a Spark session, a temporary directory and file moves.
- Query: `DURATION` and `Jfk` are fixed texts. They are proved only to enter the query through `BuildQuery`. The JFK test builds both its pickup and its dropoff box from the same four bound constants through `InBox`. The Python float literals (02.py:85-88) are taken as the strings Python prints for them.
- What Spark computes from the query (`HOUR`, `DAYOFWEEK` numbering) is not modelled, only the text.
