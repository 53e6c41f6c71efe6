# Google Sheets to OpenWebRX bookmarks, modelled in Dafny

`main.py` polls a Google Sheet and turns each row into an OpenWebRX bookmark. A bookmark has
a name, a frequency in hertz and a modulation token. The bookmarks are written to
`./output/bookmarks.json` as the JSON text that `json.dumps(..., indent=4)` produces.
This project models the decision logic of that program:

- **The bookmark constructor** (`Bookmark.__init__`, main.py:33-39):
  - The frequency cell holds megahertz with ',' or '.' as the decimal separator. It becomes
    `int(float(freq.replace(",", ".")) * 1000000)` hertz.
  - The modulation code is lower-cased, and "fm" becomes "nfm".
  - The constructor raises when the frequency cell is not a number. The model returns `None`
    in that case (module `Frequency`, `Modulation`, `Bookmarks`).
- **The serializer** (`bookmarks_list_to_json`, main.py:41-59):
  - It builds one dictionary per bookmark, with the keys `name`, `frequency` and `modulation`
    in that order.
  - The list is written by a model of `json.dumps` with `indent=4` and the default
    `ensure_ascii` (modules `Serializer`, `Json`).
  - A reader for that text (module `JsonReader`) is proved to be its inverse. So the written
    file determines the bookmarks exactly.
- **One polling cycle after the fetch** (`sheets_to_owrx`, main.py:88-112), in module `Cycle`:
  - When there are no rows, nothing is written.
  - Each row becomes `Bookmark(row[7], row[0], row[8])`, and a row whose constructor raises
    is dropped.
  - The document is written only when at least one bookmark survived.
  - The row loop is an imperative method proved against the function `CycleOutcome`.

Numbers are exact decimals (`Frequency.Decimal`: an integer over a power of ten). The parse
accepts every plain decimal that `float` accepts: an optional sign, digits, and at most one
'.', with at least one digit in all. Hertz are `num * 10^6 / 10^scale` truncated toward zero,
as `int()` truncates.

Three consequences of the code that a reader might not expect:

- **Rounding.** `int()` truncates toward zero, so 0.0000009 MHz gives 0 Hz, not 1
  (`Frequency.ExampleTruncatedTowardZero`).
- **Short rows.** `row[7]`, `row[0]` and `row[8]` are indexed in the log call at main.py:97,
  outside the `try` of lines 98-102. Only `HttpError` is caught, at line 114. So a row with
  fewer than nine cells raises `IndexError`, which ends the cycle and the process; the row is
  not skipped. The model's outcome is `IndexError(row)` (`Cycle.ShortRowAborts`).
- **Empty fields.** `main.py` checks neither the name nor the modulation, and the model keeps
  any string.

## Model

| member | source | states |
|---|---|---|
| Frequency.ReplaceCommas | main.py:35 | `freq.replace(",", ".")`: the result has the same length, each ',' becomes '.', and every other character is kept |
| Frequency.ParseFrequency | main.py:35 | the field has a frequency exactly when, after each ',' becomes '.', it is a well-formed decimal; the frequency is then that decimal times 10^6 truncated toward zero |
| Frequency.Hertz | main.py:35 | `int(value * 1000000)`: the result is num·10^6 / 10^scale truncated toward zero (magnitude bounds and sign) |
| Frequency.TruncDiv | main.py:35 | the quotient rounded toward zero, as `int()` rounds a float quotient |
| Frequency.ParseDecimal | main.py:35 | the parse succeeds exactly on an optional sign, then digits with at most one '.', with at least one digit; a negative value comes only from a leading '-' |
| Frequency.ParseRender | main.py:35 | parsing the text of any decimal, at any scale and sign, gives that decimal back |
| Frequency.SeparatorIndependent | main.py:35 | two fields that differ only in writing ',' or '.' as separator give the same hertz, or are both rejected |
| Frequency.TwoSeparatorsRejected | main.py:35 | a field with two separators of either kind (such as "1,000.5") is rejected |
| Frequency.TruncatedQuotientUnique | main.py:35 | only one integer is the truncated quotient, so the hertz value is determined |
| Frequency.HertzExact | main.py:35 | with at most six fraction digits, the hertz value is exactly num·10^(6-scale), with nothing cut off |
| Frequency.HertzOfEqualValues | main.py:35 | two decimals with the same value (such as "100.5" and "100.500") give the same hertz |
| Frequency.ExampleDottedHertz | main.py:35 | "100.500" gives 100500000 Hz |
| Frequency.ExampleCommaHertz | main.py:35 | "100,5" gives 100500000 Hz |
| Frequency.ExampleTruncatedTowardZero | main.py:35 | "0.0000009" and "-0.0000009" give 0 Hz: the value is truncated toward zero, not rounded |
| Modulation.Lower | main.py:36 | `mode.lower()`: the result has the same length, each letter A-Z is lowered, and every other character is kept |
| Modulation.LowerOfLower | main.py:36 | lowering text that has no upper-case letter leaves it unchanged |
| Modulation.Canonical | main.py:36-39 | the stored modulation has no upper-case letter |
| Modulation.CanonicalCases | main.py:36-39 | the result is "nfm" exactly when the code lowers to "fm" or "nfm"; otherwise it is the lowered code |
| Modulation.CanonicalIdempotent | main.py:36-39 | applying the constructor's modulation rule to a stored modulation gives the same modulation |
| Modulation.FmVariants | main.py:36-37 | exactly "fm", "fM", "Fm" and "FM" lower to "fm" |
| Modulation.ExampleCodes | main.py:36-39 | "FM" becomes "nfm", "AM" becomes "am", "nfm" stays "nfm" and "USB" becomes "usb" |
| Bookmarks.NewBookmark | main.py:33-39 | the constructor fails exactly when the comma-replaced frequency is not a decimal. Otherwise the name is kept verbatim, the modulation is the canonical token, and the frequency is the truncated hertz value |
| Bookmarks.BookmarkSeparatorIndependent | main.py:33-35 | rows whose frequency fields differ only in ',' versus '.' give the same bookmark |
| Bookmarks.ExampleAmBookmark | main.py:33-39 | ("VHF Tower", "100.500", "AM") gives {"VHF Tower", 100500000, "am"} |
| Bookmarks.ExampleFmBookmark | main.py:33-39 | ("Repeater", "100,5", "FM") gives {"Repeater", 100500000, "nfm"} |
| Bookmarks.ExampleRejectedBookmark | main.py:35 | the frequency "1,000.5" makes the constructor fail |
| Json.Encode | main.py:59 | the text of a value at any nesting level is non-empty printable ASCII and line breaks, and starts with a character that can begin a JSON value |
| Json.Dumps | main.py:59 | with `ensure_ascii`, the whole text is printable ASCII and line breaks |
| JsonReader.ParseDumps | main.py:59 | loading the text `json.dumps(j, indent=4)` writes gives j back |
| JsonReader.ReadEncode | main.py:59 | the text of a value at any nesting level reads back as that value, and reading stops right after it |
| JsonReader.ReadEscaped | main.py:59 | a string escaped as `ensure_ascii` writes it reads back, up to its closing quote, as the original characters |
| JsonReader.ReadSurrogatePair | main.py:59 | a character above U+FFFF, written as a surrogate pair of \u escapes, reads back as that character |
| Json.IntText | main.py:55 | the text of the integer frequency: digits whose value is the number, after a '-' when it is negative |
| Json.EscapeChar | main.py:59 | with `ensure_ascii`, a printable ASCII character other than `"` and `\` is written as itself, and every other character as an escape starting with `\` |
| Json.Escape | main.py:59 | the escaped string is printable ASCII and no shorter than the string (`JsonReader.ReadEscaped` is its inverse) |
| Json.Quote | main.py:59 | a string literal is printable ASCII and at least two characters longer than the string |
| JsonReader.ReadIntText | main.py:55 | the decimal text of an integer frequency reads back as that integer |
| Serializer.BookmarksListToJson | main.py:41-59 | the loop builds one dictionary per bookmark, in list order, and the result is `json.dumps` of that list |
| Serializer.DocumentShape | main.py:51-58 | item i of the list is an object with exactly the keys name, frequency and modulation, in that order. They hold bookmark i's name, its frequency as an integer, and its modulation |
| Serializer.BookmarkObject | main.py:53-57 | the dictionary of a bookmark reads back as that bookmark |
| Serializer.Document | main.py:51-58 | reading the list of dictionaries back gives the same bookmarks in the same order, so no bookmark is lost, added or reordered |
| Serializer.ReadDocumentOnlyDocuments | main.py:51-58 | every value read as a list of bookmarks is exactly the document of those bookmarks |
| Serializer.EmptyListText | main.py:51-59 | an empty list is written as "[]" |
| Cycle.SheetsToOwrx | main.py:88-112 | the row loop and the write decision give the outcome `CycleOutcome` defines for the fetched rows |
| Cycle.AppendRowBookmark | main.py:98-102 | the try block of one row keeps the bookmarks equal to the survivors of the rows read so far |
| Cycle.CycleOutcome | main.py:88-112 | no rows is exactly "No data found"; IndexError names a short row after full rows only; "Nothing to write" and writing happen only when every row is full, with no surviving bookmark and with at least one |
| Cycle.FullRowsOutcome | main.py:104-112 | with rows, all of them full, the cycle writes the document of the survivors when there is one, and writes nothing otherwise |
| Cycle.RowBookmark | main.py:99 | the bookmark of a full row exists exactly when its frequency cell is a decimal after ',' becomes '.', and it carries row[7] as name and the canonical token of row[8] |
| Cycle.FirstShortRow | main.py:96-97 | there is no short row exactly when every row has nine cells. Otherwise the result is the first row with fewer cells |
| Cycle.Attempts | main.py:96-99 | one constructor result per row, in row order |
| Cycle.Survivors | main.py:94-102 | the loop keeps at most one bookmark per row |
| Cycle.SurvivorsComeFromRows | main.py:96-100 | every bookmark in the output is the bookmark of one of the rows |
| Cycle.AttemptsAppend | main.py:96-99 | the constructor results of two batches of rows are those of the first followed by those of the second |
| Cycle.SurvivorsStep | main.py:96-102 | one loop step appends the row's bookmark when its constructor succeeds, and appends nothing when it raises |
| Cycle.SurvivorsAppend | main.py:96-102 | the bookmarks of two batches of rows are those of the first followed by those of the second |
| Cycle.DroppedRowSkipped | main.py:98-102 | a row whose constructor raises is dropped, and the rows after it are still processed |
| Cycle.SurvivorsWhenAllParse | main.py:96-100 | when every row gives a bookmark, the output holds one bookmark per row, in row order |
| Cycle.SurvivorsNonEmpty | main.py:94-104 | some bookmark survives exactly when some row gives one |
| Cycle.SurvivorPosition | main.py:96-100 | the bookmark of row i comes right after the bookmarks of the rows before it |
| Cycle.WritesExactlyWhen | main.py:88-112 | the file is written exactly when there are rows, every row has nine cells, and at least one row gives a bookmark |
| Cycle.NoWriteCases | main.py:88-112 | no rows means "No data found". Rows that all fail mean "Nothing to write". Neither writes |
| Cycle.ShortRowAborts | main.py:96-97 | the first row with fewer than nine cells ends the cycle with IndexError, whatever came before it and whatever follows it |
| Cycle.WrittenFileReadsBack | main.py:104-110 | the text written to bookmarks.json reads back as JSON to exactly the surviving bookmarks, in row order |
| Cycle.OneRowOutcome | main.py:94-110 | a single full row that gives a bookmark writes the document of that bookmark alone |
| Cycle.ExampleOneRow | main.py:88-112 | the row ["100.500", "", "", "", "", "", "", "VHF Tower", "AM"] writes the document of {"VHF Tower", 100500000, "am"} |
| Cycle.ExampleShortRow | main.py:96-97 | a good row followed by the row ["145.5"] ends the cycle with IndexError at row 1 |

## Left out

- Frequency.ParseFrequency: the arithmetic is exact decimal, not binary floating point. Python's `float` can land just below the decimal value, and `int()` then cuts one hertz off. For example, "128.003" gives 128002999 in Python and 128003000 here. Values beyond 2^53 Hz lose precision in Python, and huge values overflow to infinity, where `int()` raises. The model has none of these effects.
- Frequency.ParseFrequency: `float` also accepts surrounding whitespace, '_' between digits, exponents ("1e2"), "inf", "nan" and Unicode decimal digits other than '0'-'9' (full-width "１００.５", Arabic-Indic "١٠٠.٥"). The model rejects all of these. For "inf" and "nan", `int()` raises in Python too, so the two agree there. For " 7", "1_0", "1e2" and the other digit scripts, Python gives a frequency and the model drops the row.
- Bookmarks.NewBookmark: inherits both frequency lines above. The bare `except` at main.py:101 treats any exception of the constructor alike, and the model treats each as `None`.
- Modulation.Lower: lowers only A-Z. Python's `str.lower` also lowers other Unicode letters, and the model leaves those unchanged.
- Json.Dumps: a Dafny string cannot hold a lone surrogate, so strings that hold one are not modelled. Key sorting and separators other than the `indent=4` defaults are not modelled, because the program does not use them.
- JsonReader.Parse: reads the JSON that `Dumps` writes (integers, strings, arrays, objects and whitespace). Floats, `true`, `false` and `null` are not read, because the written documents never hold them.
- Logging (main.py:74, 91, 97, 102, 105, 112, 115, 122): not modelled. The messages have no effect on the outcome.
- Creating `input` and `output` and writing the file (main.py:70-74, 107-110): I/O. The outcome `Write(text)` is the text that replaces `./output/bookmarks.json`.
- Service-account credentials, the Sheets API call and `HttpError` (main.py:76-87, 114-115): network and authentication. The fetched rows are the parameter of `Cycle.SheetsToOwrx`.
- The polling loop of `main` (main.py:117-124), the 15-minute sleep and the clock: not modelled, because they are timing and I/O only. Each cycle is independent of the others.
- `SCOPES` and the environment variables `SHEET_ID` and `SHEET_RANGE` (main.py:17-21): configuration of the fetch, which is outside the model.
