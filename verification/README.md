# Supplier and product logic of a SAPUI5 catalogue front end, in Dafny

This project models the parts of a SAPUI5 supplier/product front end that are plain
string logic:

- the supplier CSV exporter (`csvEscape` and the line assembly of `onExportCSV`);
- the CSV importer's parser `_parseCSV`, as written, with its leniencies;
- the import's header check and counting loop in `onCsvSelected`;
- the create-product form: `_hasText`, `_isPureNumericString`, `_isValidNumericInput`,
  `_validateFields`, `_getPayload`, `_recalcClearEnabled` and the check order of `onSave`;
- the create-supplier form: `_resetForm`, `_hasText`, `_recalcClearEnabled`,
  `_getPayload` and the name/e-mail/telephone checks of `onSave`.

Modules, one file each:

- `Wrappers`: `Option`, standing for JavaScript `null`/`undefined`.
- `JsStrings`: the whitespace class shared by `trim` and `\s`, `trim`, `_hasText` and
  `Array.prototype.join`.
- `CsvExport`, `CsvParse` and `CsvRoundTrip`.
- `SupplierPayload`: the supplier object that both the import loop and the create form
  send.
- `SupplierImport`, `ProductForm` and `SupplierForm`.

Strings are `seq<char>`. Whitespace is the full ECMAScript WhiteSpace and
LineTerminator set, and it includes U+FEFF, so one leading byte-order mark is also
whitespace to `trim`.

Two parameters stand in for what the model leaves abstract:

- The backend's answer to each `create(...).created()` of the import is the parameter
  `created: nat -> bool`, indexed by data-row position.
- `Number.isFinite(Number(v))` is the parameter `finite: string -> bool`.

The parser is modelled exactly as written. A `"` opens quoting even in the middle of a
field. A quote that is never closed runs to the end of the input without an error.
Header cells and values are trimmed. The header line of an export is not escaped. Next
to the parser there is a three-state automaton without lookahead, and
`CsvParse.ScanIsAutomaton` proves the two agree.

On import, address and description go into the payload without trimming (`r.address
|| ""`). The parser has already trimmed every value, though, so they arrive trimmed
anyway.

## Model

| member | source | states |
|---|---|---|
| `JsStrings.Trim` | app/webapp/controller/Suppliers.controller.js:606 | `trim` returns the slice between the leading and the trailing whitespace: the result starts and ends with non-whitespace, and everything cut off on either side is whitespace |
| `JsStrings.HasText` | app/webapp/controller/Create-product.controller.js:49-51 | `_hasText` holds exactly when the value is a string with at least one non-whitespace character |
| `JsStrings.IsTrimOfIsTrim` | app/webapp/controller/Create-supplier.controller.js:60-64 | a text that is trimmed and is the input with only whitespace cut off at either end is the input's `trim`, so the payload contracts pin each trimmed field to the input's text |
| `JsStrings.JoinLast` | app/webapp/controller/Suppliers.controller.js:430-434 | `join` puts the separator between consecutive parts and nowhere else: a join of several parts is the join of all but the last, the separator, and the last part |
| `JsStrings.TrimEmptyIffBlank` | app/webapp/controller/Create-supplier.controller.js:37-39 | trimming leaves nothing exactly when `_hasText` is false |
| `CsvExport.DoubleQuotes` | app/webapp/controller/Suppliers.controller.js:425 | the length grows by the number of quotes and the set of characters is unchanged |
| `CsvExport.DoubleQuotesInPlace` | app/webapp/controller/Suppliers.controller.js:425 | every `"` is doubled in place and nothing else changes: each character keeps its order, shifted right by the number of quotes before it, and each quote is directly followed by a second one |
| `CsvExport.EscapedHasSpecial` | app/webapp/controller/Suppliers.controller.js:425-426 | doubling quotes never changes whether a value contains `"`, `,`, CR or LF, so testing the escaped text is testing the value |
| `CsvExport.CsvEscape` | app/webapp/controller/Suppliers.controller.js:422-427 | `null`/`undefined` gives the empty field; a value with `"`, `,`, CR or LF is wrapped in quotes around its quote-doubled text; any other value is unchanged |
| `CsvExport.Lines` | app/webapp/controller/Suppliers.controller.js:429-433 | the first line is the header joined by commas and not escaped; then there is one line per record, in order |
| `CsvRoundTrip.RecordLineReadsBack` | app/webapp/controller/Suppliers.controller.js:432 | a record's line, read back on its own, is one row of the record's values in header order, with `""` for a missing value, whatever quotes, commas or line breaks they hold (unless that row is a single empty field) |
| `CsvExport.Export` | app/webapp/controller/Suppliers.controller.js:415-435 | no records gives nothing; otherwise the output is U+FEFF followed by the lines joined by CRLF, with no trailing CRLF |
| `CsvParse.PushField` | app/webapp/controller/Suppliers.controller.js:577 | the field joins the current row and an empty field starts; the rows are untouched, and the buffers' text, read in order, is unchanged |
| `CsvParse.PushRow` | app/webapp/controller/Suppliers.controller.js:578 | the row joins the finished rows and an empty row starts; the field is untouched, and the buffers' text, read in order, is unchanged |
| `CsvParse.Scan` | app/webapp/controller/Suppliers.controller.js:580-597 | the character loop only ever appends rows, and every row it finishes has at least one field |
| `CsvParse.ScanIsAutomaton` | app/webapp/controller/Suppliers.controller.js:583-596 | the one-character-lookahead loop ends in the same buffers and quote state as a three-state automaton that reads one character at a time |
| `CsvParse.Finish` | app/webapp/controller/Suppliers.controller.js:599-600 | at end of input the last field is always flushed; the last row is kept only if it has more than one field or one non-empty field |
| `CsvParse.ParseRows` | app/webapp/controller/Suppliers.controller.js:571-600 | every raw row the parser produces has at least one field |
| `CsvParse.CrlfReadsAsLf` | app/webapp/controller/Suppliers.controller.js:593-594 | outside quotes, input with CRLF decodes to the same rows as input with LF |
| `CsvParse.TrailingNewlineAddsNoRow` | app/webapp/controller/Suppliers.controller.js:599-600 | a final LF after a kept row adds no row |
| `CsvParse.StripBom` | app/webapp/controller/Suppliers.controller.js:604 | one leading U+FEFF is removed, and nothing else changes |
| `CsvParse.BomRemovalIsRedundant` | app/webapp/controller/Suppliers.controller.js:604-606 | because U+FEFF is whitespace to `trim`, removing it before trimming changes no header name |
| `CsvParse.HeaderOf` | app/webapp/controller/Suppliers.controller.js:604-606 | the header has one trimmed name per cell of the first row; the first cell also loses a leading byte-order mark |
| `CsvParse.AssignFields` | app/webapp/controller/Suppliers.controller.js:608-610 | the object's keys are exactly the header names; each holds the trimmed field at its position (`""` past the end of the row); for a repeated name the later position wins |
| `CsvParse.Assemble` | app/webapp/controller/Suppliers.controller.js:602-613 | no raw rows gives an empty header and no rows; otherwise the header comes from the first row, and each later row, in order, becomes one object keyed by that header |
| `CsvParse.AssembledRow` | app/webapp/controller/Suppliers.controller.js:607-611 | every assembled data row has exactly the header names as keys; under each name it holds the trimmed field at the name's last header position, or `""` past the end of the row |
| `CsvParse.ParseCsv` | app/webapp/controller/Suppliers.controller.js:571-614 | an empty text gives no header and no rows; every header name is trimmed, and every data object has exactly the header names as keys, each with a trimmed value |
| `CsvRoundTrip.MidFieldQuoteOpens` | app/webapp/controller/Suppliers.controller.js:591 | a quote inside a field opens quoting: the quotes vanish and the enclosed text, commas and line breaks included, joins the field |
| `CsvRoundTrip.UnterminatedQuoteRunsToEnd` | app/webapp/controller/Suppliers.controller.js:583-589 | after an opening quote that is never closed (every later quote is part of a `""` pair), the rest of the input goes into the current field with each pair read as one `"` and separators and line breaks kept, the quote stays open, and no error arises |
| `CsvRoundTrip.ScanEscaped` | app/webapp/controller/Suppliers.controller.js:583-596 | the parser reads every `csvEscape`d value back as the value itself when no quote follows it |
| `CsvRoundTrip.ParseRowsInvertsEncodeRows` | app/webapp/controller/Suppliers.controller.js:571-600 | rows of arbitrary texts, escaped, comma-joined and CRLF-joined, parse back to the same raw rows, provided the last row is not a single empty field |
| `CsvRoundTrip.ExportIsEncodeRows` | app/webapp/controller/Suppliers.controller.js:429-435 | the export is that encoding of the header row, with the byte-order mark in front of it, followed by the records' values |
| `CsvRoundTrip.HeaderOfExportedHeader` | app/webapp/controller/Suppliers.controller.js:430 | an exported header line reads back as the header names when they are trimmed |
| `CsvRoundTrip.RowObjectOfRecord` | app/webapp/controller/Suppliers.controller.js:607-611 | with distinct header names and trimmed values, a record's row reads back as the record restricted to the header names |
| `CsvRoundTrip.AssembleExportTable` | app/webapp/controller/Suppliers.controller.js:604-611 | the raw rows of an export assemble into the header and the records restricted to it |
| `CsvRoundTrip.ExportThenParse` | app/webapp/controller/Suppliers.controller.js:571-614 | parsing an export returns its header and every record, in order, restricted to the header. This needs distinct header names that are trimmed and free of `"`, `,`, CR and LF, trimmed values, at least one record, and a last line that is not a single empty field |
| `SupplierPayload.BuildPayload` | app/webapp/controller/Suppliers.controller.js:520-526 | name, e-mail and telephone are each the given text with the whitespace around it cut off (so, by `IsTrimOfIsTrim`, its `trim`), and each is empty exactly when it had no text; address and description are passed through, with missing read as `""` |
| `SupplierImport.Missing` | app/webapp/controller/Suppliers.controller.js:506-507 | `missing` holds exactly the required names the header lacks, in declared order |
| `SupplierImport.Payloads` | app/webapp/controller/Suppliers.controller.js:519-526 | there is one payload per data row, in file order |
| `SupplierImport.RowPayload` | app/webapp/controller/Suppliers.controller.js:520-526 | a row's payload holds its `name`, `email` and `tel` cells with surrounding whitespace cut off and its `address` and `description` cells as they are; a column the header lacks reads as `""` |
| `SupplierImport.PayloadName` | app/webapp/controller/Suppliers.controller.js:521-528 | a row's payload name is the row's `name` cell trimmed, and it is empty exactly when that cell is missing or blank |
| `SupplierImport.Attempts` | app/webapp/controller/Suppliers.controller.js:528-539 | whatever the backend answers, there is exactly one create per payload with a name, in file order: as many creates as named rows, and the create for a named row comes right after those of the named rows before it |
| `SupplierImport.ExportedSuppliersPassHeaderCheck` | app/webapp/controller/Suppliers.controller.js:421 | an export of suppliers with trimmed values parses back into the five exported columns as header and each record restricted to them, in order, so its header lacks none of the names the import requires |
| `SupplierImport.CountStep` | app/webapp/controller/Suppliers.controller.js:528-539 | each row joins exactly one of the two sets: successes when it has a name and its create succeeded, errors otherwise |
| `SupplierImport.CountImport` | app/webapp/controller/Suppliers.controller.js:516-540 | the success count is the number of rows with a name whose create succeeded, the error count is the number of the others, and the two add up to the number of rows. A failed create does not stop the rows after it |
| `SupplierImport.ImportCsv` | app/webapp/controller/Suppliers.controller.js:503-540 | a header missing a required name stops the import before any create and reports exactly the missing names; otherwise every parsed data row is counted as above |
| `ProductForm.IsPureNumericString` | app/webapp/controller/Create-product.controller.js:53-56 | a missing value is not numeric; a text is numeric exactly when the whole of it matches the pattern, and a numeric text always has text |
| `ProductForm.PureNumericIffMatches` | app/webapp/controller/Create-product.controller.js:53-56 | `_isPureNumericString` accepts exactly the strings matching optional whitespace, an optional sign, digits, an optional dot with digits, and optional whitespace |
| `ProductForm.PureNumericHasText` | app/webapp/controller/Create-product.controller.js:90 | a pure numeric string always has text, so the `_hasText` guard never changes a field check |
| `ProductForm.IsValidNumericInput` | app/webapp/controller/Create-product.controller.js:58-61 | `""`, `null` and `undefined` are valid whatever the number test says; an invalid input is a text that is not a finite number |
| `ProductForm.NumericTextIffMatches` | app/webapp/controller/Create-product.controller.js:90-102 | a text field is flagged exactly when it is present and its whole text matches the numeric pattern |
| `ProductForm.ValidateFields` | app/webapp/controller/Create-product.controller.js:86-125 | each of name, category and description is flagged exactly when it reads as a number; price and stock are flagged exactly when they hold a non-empty text that is not finite; the result is true exactly when nothing is flagged |
| `ProductForm.PayloadNumber` | app/webapp/controller/Create-product.controller.js:130-139 | price and stock are sent only when they are non-empty and finite; otherwise `null` is sent |
| `ProductForm.GetPayload` | app/webapp/controller/Create-product.controller.js:128-143 | name, category and test are each the entered text with the whitespace around it cut off, and empty exactly when they had no text; the description is passed through; a falsy supplier key becomes `null`; price and stock are sent as `PayloadNumber` says |
| `ProductForm.OnSave` | app/webapp/controller/Create-product.controller.js:180-203 | invalid fields are reported first, then a blank name, then a missing supplier; the create is reached only when all three checks pass, and it sends `_getPayload` |
| `ProductForm.CreatedProductIsValid` | app/webapp/controller/Create-product.controller.js:180-203 | a sent product has a trimmed, non-empty, non-numeric name, a non-numeric category, and a supplier key |
| `ProductForm.RecalcClearEnabled` | app/webapp/controller/Create-product.controller.js:157-167 | the flag is on exactly when a text field has text, a number field is missing or holds a finite number, or a supplier is chosen; in particular a `null` price or stock alone turns it on |
| `ProductForm.ClearEnabledWhenNumberMissing` | app/webapp/controller/Create-product.controller.js:163-164 | as written, every form whose price or stock is `null` or `undefined` has the flag on, whatever else it holds |
| `ProductForm.ClearEnabledOnEmptyForm` | app/webapp/controller/Create-product.controller.js:157-167 | as written, `_recalcClearEnabled` is true on the initial form, while `_resetForm` sets the flag false |
| `ProductForm.HasValue` | app/webapp/controller/Create-product.controller.js:157-167 | the intended flag: on every form it equals the as-written flag with a `null` price or stock read as `""`, so a supplier or a finite number turns it on; it implies the as-written flag, and when it is off, no text field has text |
| `ProductForm.HasValueAgreesWithReset` | app/webapp/controller/Create-product.controller.js:43-46 | the intended flag is off on the reset form, as `_resetForm` sets it |
| `ProductForm.HasValueMatchesWhenNumbersPresent` | app/webapp/controller/Create-product.controller.js:159-165 | the two readings differ only through `null` price or stock |
| `SupplierForm.RecalcClearEnabled` | app/webapp/controller/Create-supplier.controller.js:41-51 | the flag is off exactly when each of the five fields is missing or holds only whitespace |
| `SupplierForm.TrimField` | app/webapp/controller/Create-supplier.controller.js:43-48 | a field trims to `""` exactly when it has no text |
| `SupplierForm.ClearDisabledIffBlank` | app/webapp/controller/Create-supplier.controller.js:41-51 | the Clear button is off exactly when every field, trimmed, is back at its reset value |
| `SupplierForm.ResetAgreesWithRecalc` | app/webapp/controller/Create-supplier.controller.js:32-35 | `_resetForm` leaves the flag where `_recalcClearEnabled` would put it |
| `SupplierForm.GetPayload` | app/webapp/controller/Create-supplier.controller.js:57-66 | name, e-mail and telephone are each the typed text with the whitespace around it cut off, and empty exactly when they had no text; address and description are passed through, with missing read as `""` |
| `SupplierForm.AtIndex` | app/webapp/controller/Create-supplier.controller.js:88 | the position of the first `@`: no `@` before it, and an `@` at it unless it is the end |
| `SupplierForm.EmailOk` | app/webapp/controller/Create-supplier.controller.js:88 | the address test accepts exactly what the e-mail pattern matches |
| `SupplierForm.LocalThenDomainIffMatches` | app/webapp/controller/Create-supplier.controller.js:88 | the left-to-right reading accepts an address exactly when it matches the pattern: a local part without whitespace or `@`, then `@`, then a domain without whitespace or `@` that has a dot which is neither its first nor its last character |
| `SupplierForm.TelOfTrim` | app/webapp/controller/Create-supplier.controller.js:95-96 | the trimmed number passes exactly when the typed one has text and uses only digits, `+`, whitespace, `(`, `)` and `-` |
| `SupplierForm.OnSave` | app/webapp/controller/Create-supplier.controller.js:76-108 | a blank name is rejected first; then an e-mail address with text that does not match; then a telephone number with text that does not match; the create sends `_getPayload` |
| `SupplierForm.CreatedSupplierIsValid` | app/webapp/controller/Create-supplier.controller.js:82-108 | a sent supplier has a trimmed non-empty name, an e-mail address that is empty or well formed, and a telephone number that is empty or made of allowed characters |

## Findings

| source | as written | input that shows it | evidently intended | confidence | as-written member | corrected member |
|---|---|---|---|---|---|---|
| app/webapp/controller/Create-product.controller.js:163-164 | `d.price !== "" && _isValidNumericInput(d.price)` is true for a `null` price, and likewise for stock | the initial form (empty texts; `null` price, stock and supplier): once any field changes and is cleared again, the Clear button turns on although nothing is entered | a number field counts as a value only when it holds a non-empty finite number, so the empty form has the flag off, as `_resetForm` sets it | medium, not executed | `ProductForm.ClearEnabledOnEmptyForm` | `ProductForm.HasValue` |

## Left out

- UI plumbing is not modelled: value states, messages, dialogs, busy indicator,
  i18n texts and navigation. Only the outcome of each check is modelled.
- File I/O is not modelled: FileReader, the hidden uploader, the `.csv` extension check
  (it uses Unicode `toLowerCase`) and `FileUtil.save`.
- Record gathering for the export (selected rows or all rows of the table) is not
  modelled; the export starts from a given list of records.
- OData calls are not modelled: the `isA` model check, `bindList`, `create`, `refresh`.
  Each create's outcome is the parameter `created`.
- Product price and stock stay texts: `Number(v)` and `Number.isFinite` are the parameter
  `finite`, and the payload carries the text that `Number` would convert.
- `String(s)` of non-string values in `csvEscape` is not modelled. Form fields and record
  values are strings or missing.
- Strings are sequences of code points, not UTF-16 code units. A line terminator or quote
  never falls inside a surrogate pair, so splitting is unaffected.
- `CsvParse.AssignFields`: plain maps stand for JavaScript objects, so a header name such
  as `__proto__`, which a JavaScript object treats specially, is not modelled.
- The import loop's e-mail and telephone values are not validated. The source does not
  validate them either.
- `CsvRoundTrip.ExportThenParse` covers header names that the exporter writes unescaped.
  A header containing `,`, `"`, CR or LF does not read back, because the header line is
  not escaped.
