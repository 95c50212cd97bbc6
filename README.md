# Bank-statement transaction extraction: the deterministic core

This project models the deterministic core of a small Node.js service that turns a bank
statement into transaction records and a CSV file. A language model reads the statement's
text and answers with JSON. Everything around the model call is the part modelled here:

- **`safeParseFloat` and the backend extractor** (`backend/services/pdfExtractor.js`).
  - An amount such as `"1,234.56CR"` is cleaned to the characters `0-9`, `.` and `-`.
  - The cleaned text is read with `parseFloat`, and `null` is answered where that gives NaN.
  - Every element of `data.transactions` is mapped to `{date, description, amount, balance, type}`.
  - Only records with an amount and a type of exactly `"Credit"` or `"Debit"` are kept, in order.
  - The result goes into the `{success, count, transactions}` envelope.
- **The services extractor** (`services/pdfExtractor.js`).
  - The regex `/\{[\s\S]*\}/` cuts out the JSON region.
  - `JSON.parse` is tried first, and `jsonrepair` only when it fails.
  - `data.transactions` is passed through unfiltered.
- **CSV variant A** (the `/api/upload` handler of `server.js`). It has a five-column header.
  The description is always quoted with its quotes doubled. The other four cells are written
  bare, and falsy values are blanked by `|| ""`.
- **CSV variant B** (the `/upload` route of `api/routes/uploadRoutes.js`). It has an
  eight-column header. `null`/`undefined` becomes an empty cell. Strings are quoted with their
  quotes doubled. Anything else is written as `String(v)`.

JavaScript values are a datatype (`JsValues.JsValue`). Numbers are exact decimals
(`Decimals.Decimal`, an integer mantissa and a power-of-ten scale): cleaning deletes every
letter, so `parseFloat` can only ever read `-?digits[.digits]` or `-?.digits`.

Three things outside the core are parameters and are never specified:
- `JSON.parse` and `jsonrepair` (`string -> Option<...>`);
- the outcome of the chat-completion call (`JsValues.Completion`).

Exceptions are `Result.Err` values carrying V8's message text. Each extractor's `try/catch`
turns them into `Failed(message)`. `String(v)` (`JsValues.ToString`) is one of the places that
throw: `JSON.parse` makes every key an own property, so an object with a `"toString"` key has
no callable `toString`, and `String()` throws "Cannot convert object to primitive value". This
reaches `safeParseFloat`, the `join` of `server.js` and the `String(v)` of the upload route.

The partner of each CSV writer is a reader for RFC 4180 with LF line breaks (`Csv.ReadDocument`). The
read-back lemmas show that the written file reads back as the header and then one record per
transaction, with the original field values. They also show what happens where the writer
does not quote.

Modules:
- `Wrappers` holds Option, Result and `MapAll`, which is `Array.map` with a callback that may throw.
- `Decimals` holds digits, decimals and `String(number)`.
- `JsValues` holds values, property reads, truthiness, `String()`, `join`, `trim` and the envelopes.
- `AmountParsing` models `safeParseFloat` as `SafeParseFloat` (its contract is stated by
  `SafeParseFloatSpec`). The built-in `parseFloat` is `ParseFloatPrefix` (see `ParseFloatPrefixSpec`).
- `TransactionFilter` is the backend extractor, `extractTransactionsFromText` of
  `backend/services/pdfExtractor.js`. It is modelled as `ExtractBackend` (see `ExtractBackendSpec`
  and `ExtractBackendErrors`). The map callback is `Normalize` (see `NormalizeAll`), and the
  filter is `KeepValid`.
- `JsonRecovery` is the services extractor, `extractTransactionsFromText` of
  `services/pdfExtractor.js`. It is modelled as `ExtractServices` (see `ExtractServicesPassesThrough`,
  `ExtractServicesNoJson` and `ExtractServicesErrors`).
- `Csv` holds the writer's cells and the reader. `Escape` is `replace(/"/g, '""')` (see
  `UnescapeEscape` and `EscapeUnescape`).
- `ServerCsv` is variant A. The CSV text of the `/api/upload` handler in `server.js` is `CsvA`,
  and the handler's answer is `ServerUpload` (see `CsvAReadBack` and `ServerUploadSpec`).
- `UploadRoute` is variant B. The CSV text of the `/upload` route in `api/routes/uploadRoutes.js`
  is `CsvB`, and the route's answer is `HandleUpload` (see `CsvBReadBack` and `HandleUploadSpec`).

## Model

| member | source | states |
|---|---|---|
| AmountParsing.Clean | backend/services/pdfExtractor.js:17 | the cleaned text is no longer than the input and holds only `0-9`, `.` and `-` |
| AmountParsing.CleanConcat | backend/services/pdfExtractor.js:17 | cleaning works character by character: it distributes over concatenation, so the kept characters stay in their original order |
| AmountParsing.CleanFixedPoint | backend/services/pdfExtractor.js:17 | cleaning leaves a text unchanged exactly when every character is a digit, `.` or `-` |
| AmountParsing.CleanIdempotent | backend/services/pdfExtractor.js:17 | cleaning twice is cleaning once |
| AmountParsing.CleanSeparated | backend/services/pdfExtractor.js:16-17 | digits, a `,` separator, digits and a trailing marker with no digit, `.` or `-` (such as `CR`) clean to the two digit runs joined |
| AmountParsing.CleanExample | backend/services/pdfExtractor.js:12-17 | `"1,234.56CR"` cleans to `"1234.56"` |
| AmountParsing.ParseFloatPrefixSpec | backend/services/pdfExtractor.js:20 | parseFloat of a cleaned text (ECMA-262, section 19.2.4) gives NaN exactly when no prefix is a decimal literal; otherwise it gives the exact value of the longest prefix that is one, together with that prefix's length |
| AmountParsing.ParseFloatFraction | backend/services/pdfExtractor.js:20 | digits, `.`, digits (at least one digit in all) followed by a non-digit read as that literal: value digits/10^fraction-length, length up to the non-digit |
| AmountParsing.ParseFloatInteger | backend/services/pdfExtractor.js:20 | digits followed by neither a digit nor `.` read as that integer |
| AmountParsing.ParseFloatFractionExample | backend/services/pdfExtractor.js:20 | `"1234.56"` reads as 1234.56 and the whole text is consumed |
| AmountParsing.ParseFloatSecondDotExample | backend/services/pdfExtractor.js:20 | `"1.2.3"` reads as 1.2 (the literal stops at the second `.`) |
| AmountParsing.ParseFloatInnerMinusExample | backend/services/pdfExtractor.js:20 | `"12-5"` reads as 12 |
| AmountParsing.ParseFloatLeadingDotExample | backend/services/pdfExtractor.js:20 | `".5"` reads as 0.5 |
| AmountParsing.ParseFloatTrailingDotExample | backend/services/pdfExtractor.js:20 | `"5."` reads as 5 |
| AmountParsing.ParseFloatPrefixNaN | backend/services/pdfExtractor.js:20-23 | `""`, `"."`, `"-"` and `"--5"` give NaN |
| AmountParsing.SafeParseFloatSpec | backend/services/pdfExtractor.js:13-24 | null for null and undefined; the "Cannot convert object to primitive value" TypeError exactly when `String(value)` throws; otherwise null exactly when the cleaned `String(value)` has no leading literal, and else the value of its longest leading literal |
| AmountParsing.SafeParseFloatToStringKey | backend/services/pdfExtractor.js:17 | an object with its own `"toString"` key makes `safeParseFloat` throw `String()`'s TypeError |
| AmountParsing.SafeParseFloatPlainObject | backend/services/pdfExtractor.js:17-23 | any other object reads as null: `"[object Object]"` cleans to nothing |
| AmountParsing.SafeParseFloatNullish | backend/services/pdfExtractor.js:14 | `safeParseFloat(null)` and `safeParseFloat(undefined)` are null |
| AmountParsing.SafeParseFloatNumber | backend/services/pdfExtractor.js:17-23 | a JSON number comes back with exactly its value: `String()` prints digits that cleaning keeps and parseFloat reads back |
| AmountParsing.SafeParseFloatStatementAmount | backend/services/pdfExtractor.js:12-23 | `"1,234.56CR"` gives 1234.56; the CR marker does not make it negative |
| AmountParsing.SafeParseFloatNoDigits | backend/services/pdfExtractor.js:17-23 | `"N/A"` gives null |
| AmountParsing.SafeParseFloatDoubleMinus | backend/services/pdfExtractor.js:17-23 | `"--5"` gives null |
| Wrappers.MapAll | backend/services/pdfExtractor.js:86-96 | `map` with a callback that may throw succeeds exactly when the callback succeeds on every element; then it gives one result per element in order; otherwise it gives the error of the first failing element |
| TransactionFilter.NormalizeAll | backend/services/pdfExtractor.js:86-96 | the map succeeds exactly when no element is null or undefined and `String()` throws on no amount or balance; then it gives one record per element in order; otherwise it fails with the error of the first element that fails: the TypeError for reading `date` of null/undefined, or `String()`'s TypeError |
| TransactionFilter.KeepValid | backend/services/pdfExtractor.js:97 | the filter's output is never longer than its input; every survivor has an amount and a type of exactly `"Credit"` or `"Debit"`; every input record that has both survives |
| TransactionFilter.KeptIndices | backend/services/pdfExtractor.js:97 | the positions of the passing records: increasing, each one passing, and every passing position listed |
| TransactionFilter.KeepValidIsKeptSubsequence | backend/services/pdfExtractor.js:97 | the filter's output is exactly the passing records taken at increasing positions, so it is an order-preserving subsequence |
| TransactionFilter.KeepValidConcat | backend/services/pdfExtractor.js:97 | filtering works record by record: filtering a concatenation is concatenating the filtered parts |
| TransactionFilter.ExtractBackendSpec | backend/services/pdfExtractor.js:84-104 | once the reply repairs and parses, extraction succeeds exactly when the map callback fails on no element of `data.transactions`; then count equals the number of records returned, every record passes the filter, and the records are the normalised elements that pass, in their original order; otherwise the error is that of the first element the callback fails on |
| TransactionFilter.ExtractBackendErrors | backend/services/pdfExtractor.js:61-104 | a failed call gives the call's own message; a reply without content gives the TypeError of `raw.substring`; the result is "Failed to extract valid JSON structure from LLM output." exactly when `jsonrepair` or `JSON.parse` throws; any other failure is the error of the first record the map callback fails on |
| TransactionFilter.ToStringAmountThrows | backend/services/pdfExtractor.js:86-93 | a record whose amount is an object with its own `"toString"` key is not dropped: the callback throws `String()`'s TypeError |
| TransactionFilter.CapitalisedKeysDropped | backend/services/pdfExtractor.js:86-97 | a record without a lower-case `amount` or `type` key (as the prompt's capitalised schema yields) never passes the filter, and the callback succeeds on it whenever `String()` can print its amount and balance |
| TransactionFilter.OtherTypesDropped | backend/services/pdfExtractor.js:97 | a record whose type string is other than exactly `"Credit"` or `"Debit"` (`"credit"`, `"Transfer"`) never passes the filter |
| TransactionFilter.MissingTransactionsIsEmpty | backend/services/pdfExtractor.js:84-100 | a missing or non-array `transactions` (or parsed data that is not an object) gives success with count 0 and no records |
| JsonRecovery.JsonSpanSpec | services/pdfExtractor.js:48-49 | a match of `/\{[\s\S]*\}/` exists exactly when some `}` follows a `{`; the span found is the leftmost, greediest match: from the first `{` to the last `}` |
| JsonRecovery.JsonSpanUnique | services/pdfExtractor.js:48 | the leftmost-greedy match is unique, so any way of finding it agrees with the span found |
| JsonRecovery.LocateJson | services/pdfExtractor.js:48-49 | a region is located exactly when the reply is present and the span (first `{`, last `}`) exists; the region is then `raw[i..j]` inclusive for that span, at least two characters long, starting with `{` and ending with `}` |
| JsonRecovery.LocateWholeObject | services/pdfExtractor.js:48 | a text that starts with `{` and ends with `}` is located as the whole text |
| JsonRecovery.LocateJsonIdempotent | services/pdfExtractor.js:48 | locating the region in the located region gives it back unchanged |
| JsonRecovery.LocateJsonInWindow | services/pdfExtractor.js:48 | cutting away text that holds no brace does not change the located region |
| JsonRecovery.LocateJsonIgnoresTrim | services/pdfExtractor.js:44-48 | trimming the reply before matching does not change the located region |
| JsonRecovery.ParseWithFallback | services/pdfExtractor.js:51-64 | when strict parsing succeeds its result is used; when it fails and repair and the second parse succeed, the result is `JSON.parse(jsonrepair(text))`; the outcome fails exactly when strict parsing fails and repair or the second parse fails, always with "Failed to parse JSON from LLM output" |
| JsonRecovery.StrictParseWins | services/pdfExtractor.js:53-58 | for text that parses strictly, the outcome does not depend on `jsonrepair` at all |
| JsonRecovery.ExtractServicesPassesThrough | services/pdfExtractor.js:44-69 | when the region parses to a non-null value, the extractor succeeds with exactly `data.transactions` (or `[]` when that is not an array), unfiltered and in order, and count is their number |
| JsonRecovery.ExtractServicesNoJson | services/pdfExtractor.js:44-49 | an absent reply, or one where no `}` follows a `{`, fails with "No JSON object found in LLM response" |
| JsonRecovery.ExtractServicesErrors | services/pdfExtractor.js:44-73 | every failure carries the call's own message, one of the two fixed messages, or the TypeError for reading `transactions` of null/undefined: nothing escapes the envelope |
| Csv.UnescapeEscape | server.js:102 | un-doubling the quotes of an escaped text gives the text back |
| Csv.EscapeUnescape | server.js:102 | only escaped texts un-double: a text that un-doubles to s is the escape of s |
| Csv.SplitCommasSpec | server.js:106 | an unquoted text with no quote or line break is its comma-free pieces joined by `,` |
| Csv.SplitRecordRender | server.js:100-106 | a line is written exactly as the line whose unquoted cells are cut at their commas, and every cell of the cut line can be read back unquoted |
| Csv.ReadQuoteFreeDocument | server.js:97-107 | lines of two or more cells joined by `\n`, whose unquoted cells hold no quote or line break, read back as one record per line: the cells' texts with the unquoted ones cut at their commas |
| Csv.ReadHeaderAndQuoteFreeRecords | api/routes/uploadRoutes.js:50 | the same for a header line, `\n` and such lines joined by `\n`: the header and then one record per line |
| ServerCsv.OrEmpty | server.js:101-106 | `v \|\| ""` prints as empty for a falsy value and as `String(v)` for a truthy one; it throws `String()`'s TypeError exactly for a truthy value `String()` cannot print; a value with no comma, quote or line break prints without one |
| ServerCsv.DescriptionText | server.js:102 | `(tx.description \|\| "").replace` throws exactly for a truthy description that is not a string; otherwise it gives the string, or empty when the description is falsy |
| ServerCsv.RowA | server.js:100-106 | a row has five cells; reading `tx.date` of a null or undefined element throws the property-read TypeError; for any other element a description that cannot be `.replace`d throws first, and otherwise `join` throws `String()`'s TypeError exactly when one of the four unquoted values cannot be printed |
| ServerCsv.HeaderALine | server.js:97-99 | the first line is exactly `Date,Description,Amount,Type,Balance` |
| ServerCsv.CsvAReadBack | server.js:97-107 | the file reads back as the header and then one record per transaction, in input order: the description exactly as given (quotes, commas and line breaks included, empty when missing) and the other four fields as `value \|\| ""` prints them |
| ServerCsv.ArrayCellsPlain | server.js:101-106 | arrays that print safely are written like other plain values: `[]` gives an empty cell (truthy, printed empty) and `[5]` gives `5` |
| ServerCsv.CsvANoTransactions | server.js:97-107 | with no transactions the file is the header line alone, with no line break after it |
| ServerCsv.FalsyCellsBlank | server.js:101-105 | a falsy amount or balance is written as an empty cell; a falsy description is written as `""` |
| ServerCsv.ZeroAmountBlank | server.js:103 | a numeric zero amount is written as an empty cell, not as `0` |
| ServerCsv.NonStringDescriptionFails | server.js:100-123 | a truthy non-string description makes the handler answer with the `.replace is not a function` TypeError |
| ServerCsv.ServerUploadSpec | server.js:91-123 | the answer carries every record unfiltered with count equal to their number; it succeeds exactly when every row can be built; a null/undefined first record yields the property-read TypeError; every error message is one of the three TypeErrors a row can throw |
| ServerCsv.ServerCountIsRowCount | server.js:98-117 | when the date, amount, type and balance of every record print with no quote and no line break (commas allowed, such as an amount `"1,234.50"`), the count in the answer is the number of data records the written file reads back as |
| ServerCsv.UnprintableCellFails | server.js:100-123 | a truthy date, amount, type or balance that `String()` cannot print makes the handler answer with "Cannot convert object to primitive value" |
| ServerCsv.UnquotedCommaShiftsColumns | server.js:100-106 | an amount string `"x,y"` is written unquoted, so its line reads back as six fields instead of five |
| UploadRoute.CellB | api/routes/uploadRoutes.js:43-46 | building the cell throws `String()`'s TypeError exactly for a value `String()` cannot print; otherwise the cell is quoted exactly when the value is a string, and for any value but an array it reads back as one field |
| UploadRoute.RowB | api/routes/uploadRoutes.js:41-48 | a row fails exactly for a null or undefined record (reading `tx["id"]` throws) or a record with a header field `String()` cannot print; otherwise it has exactly one cell per header name |
| UploadRoute.HeaderBLine | api/routes/uploadRoutes.js:36-50 | the first line is exactly `id,userId,date,description,amount,type,category,balance` |
| UploadRoute.CsvBNoTransactions | api/routes/uploadRoutes.js:50 | with zero transactions the file is the header followed by a single line break |
| UploadRoute.CellBString | api/routes/uploadRoutes.js:45 | every string, the empty one included, is wrapped in quotes, and un-doubling the inside gives the string back; `""` becomes two quotes |
| UploadRoute.CellBNonString | api/routes/uploadRoutes.js:44-46 | null and undefined give an empty cell, any other non-string value its `String()` unquoted, and an object throws exactly when it has its own `"toString"` key |
| UploadRoute.CellBZero | api/routes/uploadRoutes.js:44-46 | a numeric zero is written `0`, unlike in server.js |
| UploadRoute.RowBHeaderKeysOnly | api/routes/uploadRoutes.js:41-48 | a row depends only on the eight header keys of its record |
| UploadRoute.ExtraKeyIgnored | api/routes/uploadRoutes.js:41-48 | adding or changing a property outside the header never changes the row |
| UploadRoute.CsvBReadBack | api/routes/uploadRoutes.js:36-50 | the file reads back as the header and then one record per transaction in input order, each of eight fields in header order: strings exactly as given, null/undefined as empty, anything else as its `String()` |
| UploadRoute.HandleUploadSpec | api/routes/uploadRoutes.js:14-64 | no file gives "No file uploaded"; a failed extraction gives its error; the route accepts exactly when there is a file, extraction succeeded and no record is null/undefined or holds a header field `String()` cannot print; then it answers "Transactions extracted" with the records unchanged and count their number; otherwise it answers "Error processing file" |
| UploadRoute.CountIsRowCount | api/routes/uploadRoutes.js:29-57 | when every non-string header field of every record prints with no quote and no line break (commas allowed, such as an array category `["Food","Bills"]` printed `Food,Bills`), the count in the answer is the number of data records the written file reads back as |
| UploadRoute.UploadPassesRecordsThrough | api/routes/uploadRoutes.js:21-58 | together with the services extractor, and when every record can be written, the route answers with exactly the parsed `data.transactions`, unfiltered, and count their number |

## Left out

- The chat-completion calls and the prompt texts are left out. The call is network I/O: its
  outcome is the parameter `Completion`, and `completion?.choices?.[0]` being absent is the
  same as absent content.
- `JSON.parse` and `jsonrepair` are uninterpreted parameters. What repair produces belongs to a
  third-party library and is not specified.
- In `server.js`, lines 84-88 are left out: content access, `jsonrepair` and `JSON.parse` with
  no fallback. The model of that handler starts from the parsed `data`.
- Express, multer, `fs`, pdf-parse, `Date.now()` file names, `mkdirSync`, `writeFileSync`,
  `unlinkSync`, static serving, `backend/api/app.js` and `frontend/src/App.js` are I/O,
  framework or UI code. A throw from any of these calls is not modelled either.
- Console logging, `async`/`await` and the HTTP status codes are left out. The responses are
  modelled as values without their status.
- Numbers are exact decimals, not IEEE-754 doubles. The following are not modelled: rounding
  to a double, `String()` switching to exponent notation (at 1e21 and above, or below 1e-6),
  `-0` and `NaN` as JSON values, and `Infinity`.
- JsonRecovery.ExtractServices and TransactionFilter.ExtractBackend report a failure by its
  message. They do not model `error.message || String(error)` for a thrown error whose
  message is empty.
- UploadRoute.HandleUpload takes `extractionResult.transactions || []` as the transactions
  themselves, because the services extractor always returns an array on success.
- ServerCsv.CsvAReadBack is proved only for records whose four unquoted values print with no
  comma, quote or line break. An array qualifies when its `String()` does, such as `[]` or `[5]`.
  Outside that, the file does not read back field for field (see
  ServerCsv.UnquotedCommaShiftsColumns).
- UploadRoute.CsvBReadBack is proved only for records with no array-valued header field,
  because an array's `String()` is written unquoted and may hold commas.
- ServerCsv.ServerCountIsRowCount is proved only when the date, amount, type and balance of
  every record print with no `"` and no line break. A quote at the start of an unquoted cell
  opens a quoted field, and a line break starts a new record, so the count may then differ.
- UploadRoute.CountIsRowCount is proved only when every non-string header field of every record
  prints with no `"` and no line break, for the same reason.
- JsValues.Get reads own properties of objects only. Every other kind of value reads as
  undefined: the keys the core reads are not properties of strings, numbers or arrays, and no
  inherited property is modelled.
- JsValues.ToString models `String()` on parsed JSON only. Every key is a plain data property,
  so an object throws exactly when it has its own `"toString"` key, and an array throws when an
  element throws. Objects with getters or callable methods cannot come out of `JSON.parse` and
  are not modelled.
