# Translation table compiler, modelled in Dafny

The repository ships a build-time script, `scripts/convert-translations.ts`,
that turns a spreadsheet of translated UI strings into one nested JSON message
file per language for the application's localisation plugin. The CSV has a
header row. One column, `key`, holds dotted message keys such as
`farewell.short`. Every other column is a language code.

The script does the following:

- It rejects the input if the CSV parser reported any error.
- It finds the language columns, and rejects a header that has none.
- It starts one empty document per language.
- It takes the rows in file order. A row without a key is skipped. Otherwise each
  language whose cell is present and non-empty gets the cell's text written at
  the key's `.`-separated path, through the `dset` helper.
- It names one output file `<language>.json` per language.

This project models that pipeline on values and proves what it promises.

- `results.dfy`, module `Results`: `Option` and `Result`.
- `keypaths.dfy`, module `KeyPaths`: `Split`, a model of `key.split('.')`, and its
  inverse `Join`.
- `tree.dfy`, module `MessageTree`: the `Tree` datatype (`Leaf(text)` or
  `Node(children)`), `Lookup` along a path, and `SetIn`. `SetIn` models the
  `dset` call: it keeps intermediate objects, creates missing ones, replaces a
  string that is in the way with a fresh object, and writes the leaf.
- `convert.dfy`, module `ConvertTranslations`: the parser's output as
  `ParseResult`, the language filter, the cell, row and table steps as
  specification functions (`ApplyCell`, `ApplyCells`, `ApplyRow`, `Populate`), the imperative
  script as the method `Compile` with its phases `InitDocuments`,
  `FillDocuments`, `FillRow` and `NameFiles`, and the lemmas about the result.
- `example.dfy`, module `ConvertExample`: the two-row `en`/`ja` table, worked
  through to its two documents.

The two fatal exits (`process.exit(1)`) become `Failure(ParseErrors(messages))`
and `Failure(NoLanguageColumns)`. Neither carries any document or file, so
nothing is written on either path. Writing a file is modelled as producing an
`OutputFile(name, document)` pair.

## Model

| member | source | states |
|---|---|---|
| `ConvertTranslations.Headers` | scripts/convert-translations.ts:50 | (function body) the header fields the parser found, or the empty list when it reported none (`meta.fields \|\| []`) |
| `ConvertTranslations.Languages` | scripts/convert-translations.ts:50-51 | the languages are exactly the header fields other than `key`, each as often as in the header; a header without `key` is returned unchanged |
| `ConvertTranslations.LanguagesAppend` | scripts/convert-translations.ts:51 | the filter distributes over concatenation of headers, so languages keep their header order |
| `ConvertTranslations.Compile` | scripts/convert-translations.ts:44-96 | parse errors fail with those messages whatever the rows; otherwise no language columns fails; otherwise success, with one document per language equal to the rows applied in order to empty documents, and exactly one file per language column, `lang + ".json"`, holding that language's document |
| `ConvertTranslations.InitDocuments` | scripts/convert-translations.ts:61-64 | the loop leaves exactly one empty document per language |
| `ConvertTranslations.FillDocuments` | scripts/convert-translations.ts:66-85 | the row loop produces the documents of `Populate`: rows in input order, keyless rows skipped |
| `ConvertTranslations.FillRow` | scripts/convert-translations.ts:73-84 | the language loop for one keyed row produces `ApplyCells`, the cells taken in language order |
| `ConvertTranslations.NameFiles` | scripts/convert-translations.ts:88-89 | one file per language, in language order, named `<language>.json`, holding that language's document |
| `ConvertTranslations.EmptyDocs` | scripts/convert-translations.ts:61-64 | exactly the languages have a document, and every document is the empty object |
| `ConvertTranslations.HasKey` | scripts/convert-translations.ts:67-68 | (predicate body) the key cell is present and not the empty string, the negation of `!key` |
| `ConvertTranslations.HasValue` | scripts/convert-translations.ts:74-75 | (predicate body) the language's cell is present and not the empty string |
| `ConvertTranslations.Writes` | scripts/convert-translations.ts:67-78 | (predicate body) the row reaches `dset` for that language: it has a key and a filled cell for it |
| `ConvertTranslations.Populate` | scripts/convert-translations.ts:66-85 | the row loop keeps the set of languages, never touches a document that is not a language column, and changes nothing when no row has a key |
| `ConvertTranslations.ApplyRow` | scripts/convert-translations.ts:67-71 | one row keeps the set of languages and leaves non-language documents alone; a row without a key changes nothing |
| `ConvertTranslations.ApplyCells` | scripts/convert-translations.ts:73-84 | the language loop of a keyed row keeps the set of languages, leaves documents outside the loop alone, and changes nothing when no cell is filled |
| `ConvertTranslations.ApplyCell` | scripts/convert-translations.ts:74-83 | a filled cell makes the key's split path lead to exactly that string in that language; no other language changes; an empty or missing cell changes nothing |
| `ConvertTranslations.ApplyCellsAt` | scripts/convert-translations.ts:73-84 | after one row's cells, each language's document is its old document with the cell written, if the cell is filled, and unchanged otherwise, even when the language column is listed twice |
| `ConvertTranslations.ApplyRowAt` | scripts/convert-translations.ts:67-83 | a keyless row leaves every language as it was; in a keyed row, an empty or missing cell leaves that language unchanged while each filled cell of another language is still written |
| `ConvertTranslations.KeyedRows` | scripts/convert-translations.ts:67-71 | the rows with a present, non-empty key, and only those, never more rows than the input |
| `ConvertTranslations.KeyedRowsAppend` | scripts/convert-translations.ts:66-71 | the key filter distributes over concatenation, so the keyed rows keep their input order |
| `ConvertTranslations.KeylessRowsIgnored` | scripts/convert-translations.ts:67-71 | dropping every row without a key gives the same documents |
| `ConvertTranslations.LastWriteWins` | scripts/convert-translations.ts:66-78 | the value a row writes for a language is what the finished document holds at that key's path, unless a later row writes that language at the same path or at a path that is a prefix or extension of it; so the later of two rows with one key wins |
| `ConvertTranslations.PopulateLeaves` | scripts/convert-translations.ts:66-85 | every string in a finished document was there at the start, or is the filled cell of some keyed row for that language at exactly that path |
| `ConvertTranslations.CompiledLeaves` | scripts/convert-translations.ts:61-85 | starting from empty documents, every string in a language's document comes from a row with that key and that cell |
| `KeyPaths.Split` | scripts/convert-translations.ts:78 | splitting a key gives at least one segment, and no segment contains `.` |
| `KeyPaths.JoinSplit` | scripts/convert-translations.ts:78 | joining the segments of a key with `.` gives the key back |
| `KeyPaths.SplitJoin` | scripts/convert-translations.ts:78 | splitting joined `.`-free segments gives the segments back |
| `KeyPaths.SplitInjective` | scripts/convert-translations.ts:78 | distinct keys have distinct paths |
| `MessageTree.Descend` | scripts/convert-translations.ts:78 | (function body) `dset`'s step into one key: the existing child when it is an object, a fresh empty object when the key is missing or holds a string |
| `MessageTree.SetIn` | scripts/convert-translations.ts:78 | the write adds the first segment to the object's keys and leaves every other key alone |
| `MessageTree.SetInFound` | scripts/convert-translations.ts:78 | after the write, the path leads to exactly the written string |
| `MessageTree.SetInDiverging` | scripts/convert-translations.ts:78 | a path that parts ways with the written one looks up the same as before |
| `MessageTree.SetInIntermediate` | scripts/convert-translations.ts:78 | every proper prefix of the written path leads to an object: missing levels are created and strings in the way replaced |
| `MessageTree.SetInLeaves` | scripts/convert-translations.ts:78 | the only new string after a write is the written one, at its path |
| `MessageTree.SetInOverwrite` | scripts/convert-translations.ts:78 | writing twice at one path equals writing only the second value |
| `ConvertExample.TwoLanguageTable` | scripts/convert-translations.ts:49-85 | header `key,en,ja` with rows `greeting` (`Hello`, `こんにちは`) and `farewell.short` (`Bye`, empty) gives `en = {greeting: Hello, farewell: {short: Bye}}` and `ja = {greeting: こんにちは}` |
| `ConvertExample.CompileTable` | scripts/convert-translations.ts:44-96 | a run on the parsed `key,en,ja` table succeeds with exactly two files, `en.json` then `ja.json`, holding `{greeting: Hello, farewell: {short: Bye}}` and `{greeting: こんにちは}` |

## Left out

- Directory creation, reading the CSV file and writing each JSON file, with the per-file error report (lines 29-35, 90-95): these are I/O. A successful run's `files` list is what would be written. A write failure only produces a log line and changes no other output. The file name is `<language>.json` as a bare string: the `path.join` with the output directory (line 89) and its normalisation are not modelled, so a language column `./en` would name the same file as `en`, and `a/b` would land in a subdirectory.
- The CSV parser, Papa.parse (lines 39-42), is a foreign library. Its result is the input `ParseResult`: the error messages, the header fields (`None` when it found no header, which line 50 turns into an empty list) and the rows as maps from column to cell. A short row's missing cells are absent entries.
- `dset` beyond nested object assignment is not modelled, because its source is not part of this model. This covers arrays created for numeric segments, and the guard that stops at `__proto__`, `constructor` or `prototype` segments. `dset`'s numeric test also treats an empty or blank segment as numeric. So for keys such as `a.` or `a..b`, which `Split` turns into segments including `""`, the program creates an array where the model creates an object, and the value is lost from the emitted JSON.
- JSON serialisation with two-space indentation (line 91) is not modelled. Neither is the key order of the emitted objects: JavaScript preserves insertion order, while Dafny maps are unordered.
- Logging, `process.exit` and the catch-all error handler (lines 7, 58, 100-112). Fatal outcomes are `Failure` values, each meaning exit code 1.
- `src/main.ts` is not part of this model. It only imports the generated files and registers them with the localisation plugin.
- Flattening a finished document back to (path, value) pairs gives the filled cells only when no two keys are prefix-related: a row with key `a` and a later row with key `a.b` replace each other's entries. The model therefore proves the two halves that always hold. `CompiledLeaves` shows every leaf comes from a filled cell. `LastWriteWins` shows a cell survives unless a later, prefix-related or equal key overwrites it.
- Running the compiler twice on the same input gives identical documents because `Compile` is a deterministic function of its input. No separate lemma states this.
