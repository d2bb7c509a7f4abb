# Polyglot-Master translation tables in Dafny

This project models the translation-table pipeline of the Polyglot-Master i18n
tool and proves properties of that model. The pipeline has four parts:

- **Import.** Native localisation files are read in: Android `strings.xml`,
  iOS `.strings` and Flutter ARB. Each is decoded into an insertion-ordered
  key/value object, and a base file is merged with the files of other
  languages into a project.
- **Project.** A project is a list of language columns, each carrying its
  Android, iOS and Flutter file name and directory, plus a list of keyed
  rows. A row maps language codes to texts.
- **Export.** The project is encoded back into the three resource formats and
  gathered into an archive of path → content. It can also be written to and
  read from a spreadsheet matrix of seven metadata rows followed by data rows.
- **Editing.** The application lets the user edit one cell. It can also ask
  a translation service for the texts a target language lacks and merge the
  answers in.

Modules:

- `Wrappers` holds `Option` and `Result`.
- `JsText` holds the JavaScript string operations the code relies on:
  `split`, `replace`, `trim`, and the `\s` and `.` classes.
- `OrderedObject` is a JavaScript object as a sequence of entries. `Put`
  replaces an existing key in place and appends a new one.
- `Types` holds the project's data model.
- `StringsPattern` is the iOS line regular expression `"(.+)"\s*=\s*"(.+)";`,
  modelled as the match `String.prototype.match` reports: the leftmost
  start, then the greedy groups.
- `SourceParser` holds the decoders and the merge.
- `Generators` holds the encoders and the archive.
- `ExcelParser` holds the matrix codec.
- `App` holds the import validation, the auto-fill request list, the merge
  of the service's answers, and the cell edit.

Where the source loops and accumulates, the model is a method with a loop.
Its `ensures` ties the result to a specification function. The laws the
source promises are then proved about that function as lemmas. The archive
is a class whose `files` field the method `File` updates. A row keeps its
key apart from its `values` map, so an absent cell and an empty text stay
different.

Foreign code becomes parameters:

- `parseXml` stands for the `<string>` elements the DOM parser lists.
- `parseJson` stands for `JSON.parse` followed by `Object.keys`. It gives
  `None` where parsing throws.
- `stringify` stands for `JSON.stringify(obj, null, 2)`.
- `translate` stands for the translation service.
- `apiKey` stands for the environment's key, with `""` meaning none is set.
- Each picked file carries the text reading it yields.

## Model

| member | source | states |
|---|---|---|
| JsText.Split | utils/sourceParser.ts:29 | `split('\n')` gives at least one piece and no piece holds the separator |
| JsText.SplitJoin | utils/sourceParser.ts:29 | joining the pieces with the separator gives back the content |
| JsText.TrimEmptyIffBlank | App.tsx:190 | `trim()` gives `""` exactly when every character is whitespace or a line terminator |
| JsText.ReplaceFirst | utils/generators.ts:40 | replacing with a string pattern leaves a text without the character unchanged |
| JsText.ReplaceFirstAt | utils/generators.ts:40 | only the first occurrence is replaced; the text before and after it is kept |
| OrderedObject.PutGet | utils/sourceParser.ts:21 | after `obj[k] = v`, reading `k` gives `v` and every other key reads as before |
| OrderedObject.PutKeys | utils/sourceParser.ts:21 | assigning an existing key keeps the key order; a new key is appended |
| OrderedObject.InsertedLaw | utils/sourceParser.ts:15-23 | an object filled by a loop has a key iff some step assigns it; it then holds the last such step's value; no key repeats |
| OrderedObject.InsertedKeys | utils/sourceParser.ts:15-23 | the keys of a filled object are the assigned keys in first-assignment order, without repeats |
| OrderedObject.InsertedGet | utils/sourceParser.ts:15-23 | reading a filled object gives the last value assigned to the key |
| OrderedObject.FilterInserted | utils/sourceParser.ts:48-53 | copying only the kept keys equals filling the object with only the kept entries |
| StringsPattern.FindMatch | utils/sourceParser.ts:32-35 | None only when no match exists; otherwise a match that the regular expression's leftmost, greedy preference selects |
| StringsPattern.EntryLineMatches | utils/sourceParser.ts:32-39 | a `"K" = "V";` line with non-empty K and V, neither holding a quote or line terminator, yields exactly (K, V) |
| StringsPattern.QuotedValueKept | utils/sourceParser.ts:37-39 | captured text is not unescaped: a value with quotes (such as `\"`) but no `=` comes back as written |
| SourceParser.ParseAndroidXml | utils/sourceParser.ts:11-25 | the element loop builds the object `AndroidMap` of the listed elements |
| SourceParser.AndroidMapLaw | utils/sourceParser.ts:17-23 | a key exists iff some element has that non-empty name; it holds the last such element's `textContent` or `""`; no duplicate keys |
| SourceParser.ParseIosStrings | utils/sourceParser.ts:27-43 | the line loop builds the object `IosMap` of the content |
| SourceParser.IosMapLaw | utils/sourceParser.ts:29-41 | at most one entry per `\n`-separated line; a key exists iff some line matches with it; its value is the last such line's value group |
| SourceParser.EmptyValueSkipped | utils/sourceParser.ts:32 | `"k" = "";` gives no entry |
| SourceParser.ParseFlutterArb | utils/sourceParser.ts:45-59 | the key loop builds `ArbMap` of the parse result |
| SourceParser.ArbMapLaw | utils/sourceParser.ts:46-58 | invalid JSON gives `{}`; otherwise exactly the keys not starting with `@` are kept, in order, with their values |
| SourceParser.ContentMap | utils/sourceParser.ts:61-72 | the decoded object has no repeated key; an unrecognised platform gives `{}` |
| SourceParser.ParseContent | utils/sourceParser.ts:61-72 | dispatches to the decoder of the platform |
| SourceParser.FillRow | utils/sourceParser.ts:97-111 | the file loop yields the row with `MergedValues` of the key |
| SourceParser.CreateProjectFromSourceFiles | utils/sourceParser.ts:74-115 | builds the project `Merge` describes |
| SourceParser.MergeKeys | utils/sourceParser.ts:95-96 | the row keys are the base file's keys in base order |
| SourceParser.MergedCellLaw | utils/sourceParser.ts:100-109 | a cell for a language is set iff some file of that language has the key; its value is the last such file's |
| SourceParser.MergeCells | utils/sourceParser.ts:95-109 | row i has base key i, and a language is present iff some file of that language has the key |
| SourceParser.MergeColumns | utils/sourceParser.ts:79-92 | one column per file in order `[base, ...others]`; only the chosen platform's file and path are filled, the other four are `""` |
| Generators.AndroidEscapeOnePass | utils/generators.ts:12-17 | the chain of five replacements equals a one-pass character substitution |
| Generators.AndroidEscape | utils/generators.ts:12-17 | a value with none of `&`, `<`, `>`, `"`, `'` is written as it is; AndroidEscapeOnePass, AndroidEscapeRoundTrip and AndroidEscapeNoAngle give the rest |
| Generators.AndroidEscapeRoundTrip | utils/generators.ts:12-17 | `AndroidUnescape`, the inverse of the five substitutions, gives back the original text; this is neither a full Android resource reader nor the app's own Android import, which keeps the backslashes of `\"` and `\'` |
| Generators.AndroidEscapeNoAngle | utils/generators.ts:12-17 | the escaped text contains no `<` and no `>` |
| Generators.AndroidEscapeKeepsReaderSyntax | utils/generators.ts:12-17 | a leading `@`, `?` or backslash is written as it is, and `C:\new` comes out unchanged |
| Generators.GenerateAndroidXML | utils/generators.ts:6-23 | the result is the header, then one line per row with text, then the footer (`AndroidXml`) |
| Generators.AppendAndroidLines | utils/generators.ts:8-20 | the loop appends the rows' lines, in order, to what was written before |
| Generators.AndroidXmlLayout | utils/generators.ts:7-21 | starts with the XML declaration and `<resources>\n`; ends with `</resources>` and no newline; lines distribute over row concatenation; a single row adds its unescaped-key line iff it has text |
| Generators.GenerateIOSStrings | utils/generators.ts:25-35 | the result is the concatenation, in row order, of `"KEY" = "ESC";\n` for each row with text |
| Generators.IosStringsEmpty | utils/generators.ts:26-34 | with no text in the language the file is `""` |
| Generators.IosEscape | utils/generators.ts:30 | the escaped value holds no newline, so each entry stays on one line; a value without `"` and newlines is written as it is |
| Generators.IosRoundTrip | utils/generators.ts:25-35 | with non-empty, quote- and terminator-free keys and texts, decoding the generated file gives the language's text object `TextMap` |
| Generators.IosRoundTripDistinct | utils/generators.ts:25-35 | with distinct keys, the decoded keys are exactly the rows with text, each with its own text |
| Generators.TextMapLaw | utils/generators.ts:8-10 | the reference content has a key iff a row with that key has text; it then holds the last such row's text |
| Generators.GenerateFlutterARB | utils/generators.ts:37-49 | the text is `stringify` of the object `ArbObject` |
| Generators.ArbObjectLaw | utils/generators.ts:38-47 | `@@locale` is the first key; no key repeats; unless a row with text is keyed `@@locale`, it holds the locale name; every other key reads as in `TextMap` (first position, last text) |
| Generators.LocaleNameLaw | utils/generators.ts:40 | only the first `-` becomes `_` |
| Generators.LocaleName | utils/generators.ts:40 | the locale name has the code's length, and a code without `-` is kept; LocaleNameLaw gives the rest |
| Generators.ArbRoundTrip | utils/generators.ts:37-48 | if no row key with text starts with `@`, decoding the object as ARB gives exactly `TextMap` |
| Generators.SafePath | utils/generators.ts:63 | `""` iff the path is `""` or `/`; otherwise it ends with `/`; it starts with `/` iff the path starts with `//` |
| Generators.Archive.constructor | utils/generators.ts:54 | a new archive is empty |
| Generators.Archive.File | utils/generators.ts:64 | adding a path replaces its content in place, or appends it if new |
| Generators.WriteColumn | utils/generators.ts:57-79 | one column adds its Android, iOS and Flutter outputs, in that order |
| Generators.WritePlatform | utils/generators.ts:59-78 | one platform block writes `SafePath(dir) + file` with that platform's generated content exactly when both the file name and directory are non-empty, and otherwise leaves the archive as it was |
| Generators.GenerateZip | utils/generators.ts:53-81 | the archive holds `ZipFiles`: the column outputs inserted in column order |
| Generators.ZipOutputAt | utils/generators.ts:56-80 | column j's platform files sit at positions 3j, 3j+1, 3j+2; each is present iff its file name and directory are non-empty, at `SafePath(dir) + file` |
| Generators.ZipLayout | utils/generators.ts:56-80 | the same placement, for every column of the project |
| Generators.ZipPathsIgnoreData | utils/generators.ts:60-75 | the archive's paths and their order depend only on the columns, not on whether any text exists |
| Generators.ZipFilesLaw | utils/generators.ts:56-80 | no path repeats; a path is present iff some column and platform emit it; it holds the content of the last emitter |
| ExcelParser.HeaderIndices | utils/excelParser.ts:42-44 | exactly the positions i ≥ 1 with a non-empty header cell, in increasing order |
| ExcelParser.ParseMatrix | utils/excelParser.ts:27-71 | fails iff there are fewer than 7 rows, with the "Insufficient metadata rows" message |
| ExcelParser.ParseExcel | utils/excelParser.ts:27-71 | the column and row loops give `ParseMatrix` |
| ExcelParser.ReadColumns | utils/excelParser.ts:39-55 | the header loop gives `Columns`, skipping blank header cells |
| ExcelParser.ReadValues | utils/excelParser.ts:63-67 | the inner loop reads the `index`-th column from cell `index + 1` |
| ExcelParser.MetadataOnly | utils/excelParser.ts:27-58 | exactly 7 rows give the columns and no data rows |
| ExcelParser.ColumnsLaw | utils/excelParser.ts:42-55 | every named header cell gives the column of its own position; every column has a non-empty code and comes from one |
| ExcelParser.CellValuesLaw | utils/excelParser.ts:64-67 | every column's language is set (`""` if the cell is missing); a repeated code takes the last column's cell |
| ExcelParser.ParseRowsLaw | utils/excelParser.ts:57-69 | the data rows are exactly the rows with a non-empty key cell, in order, each parsed alone |
| ExcelParser.GenerateExcelMatrix | utils/excelParser.ts:81-113 | builds `ExcelMatrix`: 7 labelled metadata rows, then per row the key and each column's text or `""` |
| ExcelParser.MatrixLayout | utils/excelParser.ts:88-113 | metadata row k holds field k of column t at position t+1; row 7+i is item i's data row |
| ExcelParser.ExcelRoundTrip | utils/excelParser.ts:39-113 | with non-empty language codes and keys, parsing the generated matrix gives the same columns and keys, each row holding every column language with absent texts as `""` |
| ExcelParser.EmptyLangCodeLosesText | utils/excelParser.ts:64-66 | a project column with an empty code does not read back as written: the next column's text is lost; read by header position it survives |
| ExcelParser.BlankHeaderShift | utils/excelParser.ts:64-66 | with a blank header before a language, the code as written reads the cell under the blank header; reading by header position reads the language's own cell |
| ExcelParser.BlankHeaderShiftsValues | utils/excelParser.ts:64-66 | header `Key, "", en` and row `k, x, y` give `en = x` as written, `en = y` when read by header position |
| ExcelParser.ParseMatrixByHeader | utils/excelParser.ts:65 | the same parse, reading each value under its own header; fails iff fewer than 7 rows |
| ExcelParser.ByHeaderReadsOwnColumn | utils/excelParser.ts:65 | read by header position, each data row's language holds the cell under the last header naming it |
| App.ImportSource | App.tsx:131-164 | a missing base file or base code only sets the required-fields error; otherwise the project is replaced and the error cleared |
| App.ProcessSourceImport | App.tsx:130-164 | validation, the other-files loop and the merge give `ImportSource` |
| App.ParsedOthers | App.tsx:150-160 | at most one decoded file per dialog line, each with a non-empty language code and a key-value list without repeated keys; ParsedOthersLaw gives the rest |
| App.ParsedOthersLaw | App.tsx:150-160 | the decoded other files are exactly the dialog lines with a file and a language code, in order |
| App.ImportLaw | App.tsx:141-163 | an import's columns are the base code and then the selected others' codes, all non-empty; its rows are the base file's keys |
| App.MissingRequests | App.tsx:189-194 | no more requests than rows, and every request has source text; MissingRequestsLaw gives the rest |
| App.MissingRequestsLaw | App.tsx:189-194 | request j is the j-th row with source text and blank or missing target, as `{key, sourceText}` |
| App.MissingIffBlank | App.tsx:190 | a row is requested iff it has source text and its target is absent or only whitespace |
| App.NoRequestsIffComplete | App.tsx:189-196 | the request list is empty iff no row is requested |
| App.ApplyTranslations | App.tsx:205-213 | only rows with a non-empty translation take it as target text; keys, row order, columns and all other languages are unchanged |
| App.ApplyTranslationsIdempotent | App.tsx:205-213 | merging the same answers twice equals merging once |
| App.AnswerKeepsPresentText | App.tsx:205-213 | with distinct row keys and answers only for requested keys, every row that was not asked for keeps all its cells |
| App.DuplicateKeyOverwrites | App.tsx:189-213 | two rows keyed `k`, the first with French text and the second without, give one request; its answer also overwrites the first row's French text |
| App.FillCompletes | App.tsx:188-213 | if every request is answered with non-blank text and nothing is answered blank, no request remains |
| App.AiTranslate | App.tsx:179-221 | no project: nothing changes; no key: only the error is set; no requests: nothing changes; a failure sets the error; success merges the answers |
| App.AiTranslateAsksOnlyRequests | App.tsx:196-203 | the outcome depends on the service only through its answer to the request list, and not at all when the list is empty |
| App.FillTargets | App.tsx:240 | the auto-fill languages are exactly the column codes that differ from the first column's |
| App.FillFromButton | App.tsx:240 | an offered language is never the source language, so a complete answer leaves nothing to request |
| App.EditCell | App.tsx:274-278 | only row idx's cell for the language changes, to the edited text |
| App.EditLastWins | App.tsx:274-278 | two edits of one cell leave the later text |
| App.EditsCommute | App.tsx:274-278 | edits of different cells commute |
| App.EditShownText | App.tsx:272-278 | re-entering a cell's stored text changes nothing iff the cell was present; an absent cell becomes `""` |

## Left out

- The DOM parse of Android XML and its entity decoding, `JSON.parse`, `JSON.stringify` text layout, the XLSX read and write, and `JSZip.generateAsync` are foreign. They are parameters or outside the model; the model covers the logic on either side.
- JavaScript sorts integer-like object keys first. The model keeps all keys in insertion order.
- Prototype names such as `__proto__`, and a language code `key` that would overwrite a row's key field, are not modelled: a row's key and values are kept apart.
- JSON and spreadsheet values are assumed to be strings. A number or object in an ARB file or a cell is not modelled.
- Strings are sequences of Unicode characters, not of UTF-16 code units.
- FileReader failures, and the "Import failed" error they lead to, are not modelled. Each picked file carries the text it reads as.
- App.AiTranslate: the merge is applied to the project the handler saw, whereas the source's updater receives the latest project state. A project without columns throws in the source; the model leaves the state unchanged. The busy flag, the `alert` and the source's asynchrony are left out.
- App.EditCell: requires the row index to lie within the rows. The source updater can receive a shorter project than the one rendered; that case is not modelled.
- App.EditCell: the value is taken as the text the cell reports on blur; the browser's whitespace collapsing in `innerText` is not modelled.
- Generators.Archive: JSZip's implicit folder entries, created by `file()` for each parent directory, are not modelled; the archive holds file entries only.
- Generators.AndroidEscapeRoundTrip: holds for the inverse of the five substitutions only. The export does not escape backslashes, `\n`, `\t`, `\uXXXX`, or a leading `@` or `?`, which an Android resource reader interprets (AndroidEscapeKeepsReaderSyntax).
- App.ApplyTranslations: answers are matched to rows by key, so text that was already there is kept when row keys are distinct and only requested keys are answered (AnswerKeepsPresentText). A repeated key, which the spreadsheet import lets through, overwrites it (DuplicateKeyOverwrites).
- App.ImportSource: the reset of the dialog state after a successful import is not modelled.
- `parseExcel` rejects a matrix of fewer than seven rows (utils/excelParser.ts:27); the model follows the code and requires seven rows, as the code does.
- The export buttons, downloads, rendering, the Electron shell and the translation service's prompt are outside this model.

## Findings

| source | as written | input that shows it | evidently intended | confidence | as-written member | corrected member |
|---|---|---|---|---|---|---|
| utils/excelParser.ts:64-66 | a value is read from cell `index + 1`, where `index` is the column's place among the named columns | header `Key, "", en` with data row `k, x, y` gives `en = "x"`; a project column with an empty code loses the next column's text on a round trip | each language reads the cell under its own header, as the comment on line 65 says | not executed | ExcelParser.BlankHeaderShiftsValues | ExcelParser.ByHeaderReadsOwnColumn |
