# COVID-19 daily-report ingestion: header and schema normalisation

This project is a Dafny model of the logic in the ingestion job of the
COVID-19 pipeline (`dagster_pipeline/covid_pipeline/definitions.py`). The job
lists the CSSE daily-report directory and keeps the `.csv` download URLs. It
fans those URLs out as dynamic outputs keyed `"0"`, `"1"`, … by position.
For each downloaded file, `validate_and_process_data` then:

- skips input that is absent or blank;
- normalises the column headers (lower case; space, `-` and `/` become `_`;
  `latitude`, `longitude` and `incidence_rate` are renamed to `lat`, `long_`
  and `incident_rate`);
- appends every one of the fourteen schema columns the file lacks, filled
  with nulls;
- then tests whether `recovered` is the only column; coming after the
  completion, this test never holds.

The model is purely functional. Modules follow the steps above:

- `Wrappers` (`wrappers.dfy`): `Option`, standing for Python's `None`.
- `Sequences` (`sequences.dfy`): strictly increasing positions, used to
  state that a filter keeps order.
- `Text` (`text.dfy`): the Python string operations used, which are ASCII
  `lower`, one-character `replace`, `endswith`, `strip` with Python's
  whitespace set, and `str` of a natural number together with its inverse.
- `Listing` (`listing.dfy`): the `.csv` filter of `github_api_list` and the
  keying of `emit_urls`.
- `Headers` (`headers.dfy`): header normalisation and the rename table.
- `Frame` (`frame.dfy`): frames as named columns of cells, the schema column
  list, and the column-completion loop.
- `Process` (`process.dfy`): `validate_and_process_data` put together.

Parsing CSV text into a frame and the later coercion and schema validation
belong to pandas and pandera. `Process.ValidateAndProcess` therefore takes
them as the function parameters `parse` and `validate`. `None` from either
stands for the exception the code catches and turns into `return None`.

The main consequence the proofs establish is that the recovered-only test
(`set(df.columns) == {"recovered"}`, definitions.py line 89) can never be
true. It runs after the completion loop, and by then the frame has all
fourteen schema columns. So that early return is dead code. `ValidateAndProcess` is proved to
hand every parsed, non-blank file to the `validate` parameter, which stands
for the coercions and schema validation.

## Model

| member | source | states |
|---|---|---|
| `Text.EndsWith` | dagster_pipeline/covid_pipeline/definitions.py:26 | `name.endswith(".csv")` holds iff the name is at least as long as the suffix and its last characters equal the suffix's, one for one, so the test is case-sensitive |
| `Text.EndsWithAppended` | dagster_pipeline/covid_pipeline/definitions.py:26 | any name made of some text followed by the suffix ends with that suffix, whatever the text |
| `Listing.CsvSuffixExamples` | dagster_pipeline/covid_pipeline/definitions.py:26 | a dated report `01-22-2020.csv` passes the filter; `README.md` and the upper-case `01-22-2020.CSV` do not |
| `Listing.CsvUrls` | dagster_pipeline/covid_pipeline/definitions.py:26 | the comprehension puts every `.csv` entry's download URL in the result, and the result is never longer than the listing (that it holds nothing else, in order, is `CsvUrlsSpec`) |
| `Listing.CsvUrlsAllOrNone` | dagster_pipeline/covid_pipeline/definitions.py:26 | a listing of only `.csv` entries yields one URL per entry; a listing with no `.csv` entry yields nothing |
| `Listing.CsvUrlsSpec` | dagster_pipeline/covid_pipeline/definitions.py:26 | the filter returns, in listing order, the download URL of every entry whose name ends in `.csv` and of no other entry (there are strictly increasing positions selecting exactly the `.csv` entries) |
| `Listing.CsvPositionsSelect` | dagster_pipeline/covid_pipeline/definitions.py:26 | the positions of the `.csv` entries are a witness: strictly increasing, in range, each URL taken from its entry, and a position is listed iff its entry ends in `.csv` |
| `Listing.CsvUrlsIgnoresOthers` | dagster_pipeline/covid_pipeline/definitions.py:26 | an entry whose name does not end in `.csv` adds nothing to the result, wherever it stands in the listing |
| `Listing.CsvUrlsPrepend` | dagster_pipeline/covid_pipeline/definitions.py:26 | the comprehension's left-to-right reading: one more entry in front contributes its URL first iff it is a `.csv` entry |
| `Listing.CsvUrlsAppend` | dagster_pipeline/covid_pipeline/definitions.py:26 | one more entry at the end of the listing contributes its URL last iff it is a `.csv` entry |
| `Listing.EmitUrls` | dagster_pipeline/covid_pipeline/definitions.py:31-32 | one output per URL, in order, carrying that URL; the i-th key is a canonical decimal string that reads back as i; no two keys are equal |
| `Text.DecimalString` | dagster_pipeline/covid_pipeline/definitions.py:32 | `str(idx)` is non-empty, all decimal digits, and starts with `0` only for zero |
| `Text.ParseDecimalString` | dagster_pipeline/covid_pipeline/definitions.py:32 | reading `str(n)` back as a decimal number gives n |
| `Text.DecimalStringOfParse` | dagster_pipeline/covid_pipeline/definitions.py:32 | every canonical decimal string is `str` of its own value, so the key format is exactly the canonical decimals |
| `Text.DecimalStringInjective` | dagster_pipeline/covid_pipeline/definitions.py:32 | two indices get the same key iff they are equal |
| `Text.IsSpace` | dagster_pipeline/covid_pipeline/definitions.py:44 | the whitespace set of Python's `str.isspace`, the set `str.strip()` removes: ASCII tab to carriage return, 0x1C-0x1F, space, NEL, no-break space and the Unicode space separators; no digit, ASCII letter or `_` is whitespace |
| `Text.LeadingSpaces` | dagster_pipeline/covid_pipeline/definitions.py:44 | how much `lstrip()` drops: every character before that count is whitespace, and the character at it, if any, is not |
| `Text.KeptLength` | dagster_pipeline/covid_pipeline/definitions.py:44 | how much `rstrip()` keeps: every character from that length on is whitespace, and the last kept one, if any, is not |
| `Text.TrimStart` | dagster_pipeline/covid_pipeline/definitions.py:44 | the leading-whitespace half of `strip()`: a suffix of the input, all dropped characters whitespace, the first kept one not |
| `Text.TrimEnd` | dagster_pipeline/covid_pipeline/definitions.py:44 | the trailing-whitespace half of `strip()`: a prefix of the input, all dropped characters whitespace, the last kept one not |
| `Text.Strip` | dagster_pipeline/covid_pipeline/definitions.py:44 | `raw_csv.strip()` is a contiguous slice of the input, every character dropped before or after it is whitespace, and its first and last characters are not |
| `Text.TrimsAt` | dagster_pipeline/covid_pipeline/definitions.py:44 | `strip()` as `rstrip()` after `lstrip()`: the slice kept starts right after the leading whitespace and meets every condition of a stripped slice |
| `Text.StrippedEmpty` | dagster_pipeline/covid_pipeline/definitions.py:44 | a stripped slice of a string is empty iff the whole string is whitespace |
| `Text.IsBlank` | dagster_pipeline/covid_pipeline/definitions.py:44 | `not raw_csv.strip()`, with the whitespace set `str.strip()` uses, holds iff the string is empty or made only of whitespace |
| `Text.Lower` | dagster_pipeline/covid_pipeline/definitions.py:70 | `lower()` keeps the length, leaves no upper-case ASCII letter, and changes exactly the upper-case ASCII letters |
| `Text.Replace` | dagster_pipeline/covid_pipeline/definitions.py:70 | one-character `replace` keeps the length, turns each occurrence of the target into the replacement, leaves no target behind, and keeps every other character |
| `Headers.NormalizeSpelling` | dagster_pipeline/covid_pipeline/definitions.py:70 | the `lower`/`replace` chain keeps the length, leaves no upper-case ASCII letter, space, `-` or `/`, and keeps every other character |
| `Headers.NormalizeSpellingPointwise` | dagster_pipeline/covid_pipeline/definitions.py:70 | the chain of `lower` and three `replace` calls keeps the length and maps each character on its own: separators to `_`, others lowered |
| `Headers.Rename` | dagster_pipeline/covid_pipeline/definitions.py:71 | the rename dict maps `latitude`, `longitude` and `incidence_rate` to `lat`, `long_` and `incident_rate`, keeps every other header, and never yields a name that is itself renamed |
| `Headers.RenameOnlyThree` | dagster_pipeline/covid_pipeline/definitions.py:71 | the rename changes a header iff it is `latitude`, `longitude` or `incidence_rate`, which become `lat`, `long_` and `incident_rate` |
| `Headers.RenameIdempotent` | dagster_pipeline/covid_pipeline/definitions.py:71 | renaming twice is renaming once: no new name is itself renamed |
| `Headers.NormalizeHeader` | dagster_pipeline/covid_pipeline/definitions.py:70-71 | a normalised header, renamed or not, is in normal spelling |
| `Headers.NormalizeHeaderIdempotent` | dagster_pipeline/covid_pipeline/definitions.py:70-71 | normalising an already normalised header changes nothing |
| `Headers.NormalizeHeaders` | dagster_pipeline/covid_pipeline/definitions.py:70-71 | the header row keeps its count and order, each header normalised on its own and in normal spelling |
| `Headers.NormalizeHeadersIdempotent` | dagster_pipeline/covid_pipeline/definitions.py:70-71 | normalising the header row twice equals normalising it once |
| `Headers.ExampleCountryRegion` | dagster_pipeline/covid_pipeline/definitions.py:70-71 | `Country/Region` becomes `country_region` |
| `Headers.ExampleLastUpdate` | dagster_pipeline/covid_pipeline/definitions.py:70-71 | `Last Update` becomes `last_update` |
| `Headers.ExampleLatitude` | dagster_pipeline/covid_pipeline/definitions.py:70-71 | `Latitude` becomes `lat`: lower-cased first, then renamed |
| `Headers.ExampleLongitude` | dagster_pipeline/covid_pipeline/definitions.py:70-71 | `Long_` becomes `long_`, the schema's longitude name |
| `Headers.ExampleIncidenceRate` | dagster_pipeline/covid_pipeline/definitions.py:70-71 | `Incidence_Rate` becomes `incident_rate`: lower-cased first, then renamed |
| `Frame.SchemaColumnsDistinct` | dagster_pipeline/covid_pipeline/definitions.py:49-64 | the schema declares fourteen pairwise distinct column names |
| `Process.SchemaColumnsAreNormal` | dagster_pipeline/covid_pipeline/definitions.py:49-64 | every schema column name is already free of upper-case ASCII letters, spaces, `-` and `/`, so a column appended by the completion is as normalised as the renamed ones |
| `Frame.AddIfAbsent` | dagster_pipeline/covid_pipeline/definitions.py:75-76 | one loop step: afterwards the name is present, the names are the old ones plus it, existing columns are kept in place, at most one column is added, and nothing changes when the name was present |
| `Frame.CompleteWith` | dagster_pipeline/covid_pipeline/definitions.py:74-76 | after the loop every looped-over name is present, no other name appears, existing columns keep their place and contents, and the row count is unchanged |
| `Frame.Missing` | dagster_pipeline/covid_pipeline/definitions.py:74-75 | the absent schema names are exactly those not yet among the column names, without repeats when the schema has none |
| `Frame.MissingInOrder` | dagster_pipeline/covid_pipeline/definitions.py:74-75 | the absent names are listed in loop order: they are the entries of the column list at strictly increasing positions, exactly the positions whose name was absent |
| `Frame.CompleteWithAppendsMissing` | dagster_pipeline/covid_pipeline/definitions.py:74-76 | over distinct names the loop keeps the existing columns in place and appends one null column per absent name, in loop order; a column it appended never makes a later name look present |
| `Frame.CompleteWithAppended` | dagster_pipeline/covid_pipeline/definitions.py:74-76 | each appended column has a looped-over name that was absent before, one cell per row, all null |
| `Frame.CompleteColumns` | dagster_pipeline/covid_pipeline/definitions.py:74-76 | after completion all fourteen schema columns are present; existing columns keep position and contents; the appended columns are exactly the absent schema columns, in schema order (the absent ones at strictly increasing schema positions), all null; row count and rectangularity are kept |
| `Frame.CompleteColumnsIdempotent` | dagster_pipeline/covid_pipeline/definitions.py:74-76 | completing an already completed frame changes nothing |
| `Frame.RecoveredOnly` | dagster_pipeline/covid_pipeline/definitions.py:89 | `set(df.columns) == {"recovered"}` holds iff the frame has at least one column and every column is named `recovered` |
| `Frame.CompletedIsNeverRecoveredOnly` | dagster_pipeline/covid_pipeline/definitions.py:89-91 | a completed frame has at least fourteen distinct column names, so the recovered-only test is false and its early return is unreachable |
| `Process.NormalizeTable` | dagster_pipeline/covid_pipeline/definitions.py:70-71 | renaming the frame's columns keeps their count, order and cells and normalises every name |
| `Process.PrepareNamesNormal` | dagster_pipeline/covid_pipeline/definitions.py:70-76 | every column name of the frame handed to coercion and validation, the file's own or appended, is free of upper-case ASCII letters, spaces, `-` and `/` |
| `Process.PrepareKeepsFileColumns` | dagster_pipeline/covid_pipeline/definitions.py:70-76 | the frame handed to coercion and validation starts with the file's own columns, in order, each with its normalised name and its cells |
| `Process.ValidateAndProcess` | dagster_pipeline/covid_pipeline/definitions.py:43-98 | absent or blank input gives `None`; a parse failure gives `None`; otherwise the result is whatever the `validate` parameter (coercions and schema validation) makes of the normalised, completed frame, since the recovered-only return is never taken |
| `Process.BlankInputSkipsParsing` | dagster_pipeline/covid_pipeline/definitions.py:44-46 | for absent or blank input the result is `None` whatever the parser and validator do, so neither is consulted |

## Left out

- HTTP fetching of the listing and of each file, the API token and status-code handling (definitions.py lines 19-24 and 35-40): network I/O. The listing is an input of `Listing.CsvUrls`.
- The orchestrator's `@op`/`@job` wiring, dynamic-output execution and retry policy (lines 29, 34, 126-136): these belong to an external scheduler. `Listing.EmitUrls` returns the outputs as a sequence.
- CSV parsing (`pd.read_csv`, line 67): a library call. It is the `parse` parameter, which also covers the duplicate-name mangling pandas applies while reading.
- The coercions `pd.to_datetime(errors="coerce")` and `astype("float64", errors="ignore")` (lines 78-86), and `schema.validate` (line 93): library semantics and floating point. They are the `validate` parameter. The coercions change no column name, so the model runs the recovered-only test (which looks only at names) right after completion, ahead of them.
- Logging through `context.log`: it has no effect on the result.
- Loading into PostgreSQL (lines 100-124) and the environment loading (lines 11-16): database and environment I/O.
- The packaging metadata in `dagster_pipeline/setup.py`, and the SQL aggregation queries: the queries are not part of this model.
- Text.Lower: lowers only ASCII `A`-`Z`. Python's `str.lower` also lowers non-ASCII letters (for example `É`, or `İ`, which becomes two characters), so for headers with such letters the model's lower-casing is weaker than Python's. The CSSE headers are ASCII.
- Cell contents: a cell is either null or an uninterpreted text value. Column dtypes are not modelled.
