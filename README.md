# RFP Helper: a verified model of the answer pipeline and the admin page

RFP Helper keeps a library of questions and answers for a support chatbot.
Staff upload CSV files of questions, have answers generated by a language
model service, review and edit the answers, and commit them to the library.
This project models the parts of the repository that carry logic and proves
what they promise:

- **The batch answer pipeline** (`qa_processor.py`):
  - `format_answer`, the whitespace collapse and the bullet-list rewrite
    (modules `AnswerFormat` and `Text`);
  - `save_to_database` and `check_database` over the JSON answer cache
    (`QnaDatabase`);
  - the retry loop of `generate_answer`, with its exponential backoff
    (`AnswerService`);
  - `validate_csv` (`CsvValidation`);
  - the batch window and the in-place row loop of `process_qa_file`, where
    rows move from pending to completed or error (`BatchProcessor`).
- **The CSV review step in the browser** (`public/js/csv-manager.js`):
  - `convertToCSV`, with quoting as in section 2 (rules 5 to 7) of RFC 4180
    and a bare line feed between records (`CsvExport`);
  - the `CSVManager` object: its pending batch, the Save Edit handler, and
    the guards of process, commit and download (`CsvManagement`).
- **The Q&A tables and category filters** (`public/js/qna-manager.js`,
  module `QnaManager`): the distinct, first-occurrence-ordered category list,
  the filter options, and the rows of the two tables.
- **The admin panel handlers** (`public/js/admin-panel.js`, module
  `AdminPanel`): search, category filter, theme toggle and tab switching, as
  loops over arrays of abstract rows, tabs and buttons.

External effects are inputs:
- The health check is a boolean.
- The file's existence and what `pd.read_csv` produced are inputs of the
  validation.
- The answer service is an oracle: `service(row)(attempt)` is a reply with
  an answer, a request failure, or a JSON body without an `answer` key.
- The `SequenceMatcher` similarity test is a predicate parameter.
- The `fetch` round trips of the browser are the response the server gave.

Only `APIError` is caught per row (qa_processor.py:253); any other exception
ends the whole batch, and `process_qa_file` returns `False` (lines 276-278).
The model covers one such exception. A service reply that lacks the
`answer` key raises `KeyError`. `KeyError` is not a `RequestException`, so it
escapes the retry loop, and it is not an `APIError`, so it escapes the row
loop too. `BatchProcessor.RetryCrash` and
`BatchProcessor.NoMissingAnswerNeverAborts` state exactly when this happens.
Within the model, every other per-row failure only marks that row as
`error`. The source has further exceptions that end the batch, which the
model does not produce (see "Left out"):
- a `JSONDecodeError` from a malformed cache file (line 61; only
  `FileNotFoundError` is caught, at line 79);
- an `AttributeError` from `format_answer` on a non-string answer (line 48);
- an `OSError` from `df.to_csv` (line 248);
- a `TypeError` from `question[:100]` on a numeric question (line 238).

The batch window (`start_index`, `end_index`, `batch_size`) is computed but
never used: `df_to_process` is not read again, and the loop visits every
row. The model computes the window, proves its bounds
(`BatchProcessor.Window`), and runs the loop over all rows, as the code does.

## Model

| member | source | states |
|---|---|---|
| AnswerFormat.Words | qa_processor.py:48 | every piece of `answer.split()` is non-empty and holds no whitespace |
| AnswerFormat.WordsSplit | qa_processor.py:48 | `answer.split()` cuts the answer into its words and the whitespace between them: the answer is the words interleaved with whitespace-only gaps, and every gap between two words is non-empty, so each word is a maximal whitespace-free run and no character is lost |
| AnswerFormat.Collapse | qa_processor.py:48 | the definition of the whitespace step, `' '.join(answer.split())`; its properties are the `Collapse…` lemmas |
| AnswerFormat.FormatAnswer | qa_processor.py:45-55 | the definition of `format_answer`: the whitespace step, then bullet lines when the collapsed text splits into more than two comma pieces; its properties are `FormatFewCommas` and `FormatBulletList` |
| AnswerFormat.WordsOfJoin | qa_processor.py:48 | splitting a space-joined list of words gives back exactly those words, in order |
| AnswerFormat.CollapseSingleSpaced | qa_processor.py:48 | after the whitespace step there is no leading or trailing whitespace, and every whitespace character is a single `' '` between two non-whitespace characters |
| AnswerFormat.CollapseKeepsWords | qa_processor.py:48 | the whitespace step keeps the words of the answer, in order |
| AnswerFormat.CollapseIdempotent | qa_processor.py:48 | applying the whitespace step twice equals applying it once |
| AnswerFormat.FormatFewCommas | qa_processor.py:51-55 | when the collapsed answer has fewer than two commas, `format_answer` returns it unchanged |
| AnswerFormat.FormatBulletList | qa_processor.py:51-53 | with two or more commas the result has `#commas + 1` lines; line `i` is `"• "` and the stripped `i`-th comma piece, in order, and the pieces joined by `,` give back the collapsed answer |
| Text.SplitOn | qa_processor.py:51-52 | `s.split(c)` has `Count(s, c) + 1` pieces, none holding `c`, and joining them with `c` gives `s` |
| Text.SplitOnJoin | qa_processor.py:51-52 | any split of `s` into `c`-free pieces is `s.split(c)` |
| Text.StripShape | qa_processor.py:52 | `strip()` removes exactly a whitespace prefix and a whitespace suffix, and what is left starts and ends with non-whitespace |
| Text.StripIgnoresPadding | qa_processor.py:64 | `strip()` gives the same text whatever whitespace surrounds its input |
| QnaDatabase.Lookup | qa_processor.py:67-69 | the exact-match lookup finds a value exactly when some entry has that key, and what it finds is stored under the key |
| QnaDatabase.FirstSimilar | qa_processor.py:72-75 | the similarity scan finds nothing exactly when no key is similar to the question, and otherwise returns the answer of the first similar key in file order: no earlier key is similar |
| QnaDatabase.LookupStored | qa_processor.py:94 | storing overwrites only the stored key: that key gives the new answer and every other key gives what it gave before |
| QnaDatabase.StoredShape | qa_processor.py:94 | storing keeps the keys distinct and every entry in its place, and adds one entry at the end exactly when the key is new |
| QnaDatabase.SameKeyForVariants | qa_processor.py:94 | a question that differs only in letter case and surrounding whitespace is stored under the same key |
| QnaDatabase.SaveThenCheck | qa_processor.py:64-69 | after saving an answer, `check_database` with any question of the same key returns that answer through the exact match, whatever the similarity test says |
| QnaDatabase.QnaStore.constructor | qa_processor.py:90-91 | a missing cache file is the empty dictionary |
| QnaDatabase.QnaStore.Save | qa_processor.py:83-102 | `save_to_database` stores the answer under `question.lower().strip()` and keeps the keys distinct |
| QnaDatabase.QnaStore.Check | qa_processor.py:57-81 | `check_database` tries the exact key first, then returns the first similar key in file order, and changes nothing |
| AnswerService.Backoff | qa_processor.py:146-147 | after failed attempt `k`, other than the last, the loop sleeps `2^k` seconds |
| AnswerService.Retry | qa_processor.py:114-147 | the definition of the retry loop's outcome and request count from attempt `k`; its properties are `RetryFrom` and `RetryOutcome` |
| AnswerService.RetryFrom | qa_processor.py:114-147 | from attempt `k` on, the loop stops at the first attempt that did not fail, or raises `APIError` at the last one |
| AnswerService.RetryOutcome | qa_processor.py:114-147 | at most `retry_count` requests; all but the last failed; `APIError` exactly when all `retry_count` requests failed; `None` exactly when `retry_count` is 0; otherwise the first reply's answer, or the escaping `KeyError` |
| AnswerService.RequestWithRetry | qa_processor.py:114-147 | the loop computes the outcome and the number of requests that `Retry` specifies, and sleeps the durations that `Backoff` specifies |
| AnswerService.Formatted | qa_processor.py:136 | only a successful attempt's text is formatted; failures pass through unchanged |
| AnswerService.GenerateSpec | qa_processor.py:104-147 | the definition of `generate_answer`'s outcome and the cache afterwards; `GenerateAnswer` is proved equal to it |
| AnswerService.GenerateAnswer | qa_processor.py:104-147 | a truthy cached answer is returned formatted, with no request and the cache unchanged; otherwise the retry loop runs and only a formatted answer is saved |
| AnswerService.CachedAfterGenerate | qa_processor.py:104-140 | once an answer is generated and cached, asking again with any question of the same key is answered from the cache, with no request |
| AnswerService.CacheHit | qa_processor.py:107-110 | a question whose key holds a non-empty answer is answered from the cache and leaves the cache unchanged |
| CsvValidation.MissingCount | qa_processor.py:166-168 | the empty-question count is zero exactly when every row has a question |
| CsvValidation.DuplicateCountDistinct | qa_processor.py:171-173 | the reported duplicate count is the number of rows minus the number of distinct questions |
| CsvValidation.NoDuplicatesIff | qa_processor.py:171-173 | no duplicates are reported exactly when all questions differ pairwise |
| CsvValidation.Validate | qa_processor.py:149-182 | the definition of `validate_csv`: the table, or the first failing check; its properties are `ValidateOk` and `ValidateOrder` |
| CsvValidation.ValidateOk | qa_processor.py:149-175 | the table is accepted, and returned as read, exactly when the file exists, the name ends in `.csv` in any case, it parses, the `Question` column exists, and no question is missing or repeated |
| CsvValidation.ValidateOrder | qa_processor.py:152-182 | each error, in both directions: file not found, wrong extension, empty file, unparsable file, another read error with its message, missing `Question` column, a missing question, and two equal questions; each is reported exactly when every check before it passed; a duplicate error carries rows minus distinct questions |
| CsvValidation.ExtensionCheck | qa_processor.py:155 | a path passes the extension check exactly when it ends in a dot followed by `c`, `s` and `v`, each in either case |
| BatchProcessor.OrDefault | qa_processor.py:206 | `x or d` gives `d` when `x` is `None` or 0, and `x` otherwise |
| BatchProcessor.Window | qa_processor.py:205-210 | the start is `start_index or 0`; the end never exceeds the row count, a truthy `end_index`, or start plus a truthy `batch_size`; the end is the row count or one of those truthy candidates |
| BatchProcessor.ZeroEndIsAbsent | qa_processor.py:207 | `end_index=0` gives the same window as no `end_index`, whatever the batch size; without a batch size the window then ends at the row count |
| BatchProcessor.ZeroBatchIsAbsent | qa_processor.py:209-210 | `batch_size=0` gives the same window as no `batch_size`, whatever the end index |
| BatchProcessor.PrepareColumns | qa_processor.py:214-220 | a missing `Status` column becomes `'pending'` in every row and a missing `Answer` column becomes `''`; questions and existing columns are kept |
| BatchProcessor.Record | qa_processor.py:241-256 | a returned answer is written to `Answer` with status `completed`; a `None` return writes `None` with status `completed`; `APIError` sets status `error` and changes nothing else |
| BatchProcessor.Step | qa_processor.py:226-256 | the definition of one turn of the row loop; its properties are `StepShape` |
| BatchProcessor.StepShape | qa_processor.py:226-256 | a completed row is skipped unchanged and the generator is not called; any other row is recorded, as `Record` states, with what `generate_answer` returned for it, or the batch aborts when the exception escaped; unless the batch aborts, the row ends completed or `error` |
| BatchProcessor.Run | qa_processor.py:226-256 | the definition of the row loop from row `i`; it keeps the row count |
| BatchProcessor.RunShape | qa_processor.py:226-256 | the loop keeps the row count, leaves completed rows untouched, only writes the answer and status `completed` or sets status `error` on the other rows, and when it runs to the end leaves every row completed or `error` |
| BatchProcessor.CacheAt | qa_processor.py:226-256 | the cache as the loop finds it when it reaches row `j` |
| BatchProcessor.RunRows | qa_processor.py:226-256 | when the loop runs to the end, each row ends as one step made it from the row as read and the cache as it was when the loop reached that row, so with `StepShape` and `Record` each row's answer is the text returned for it |
| BatchProcessor.FinishedCounts | qa_processor.py:264-265 | when every row is finished, the completed count plus the error count is the row count |
| BatchProcessor.RetryCrash | qa_processor.py:133-145 | the retry loop lets an exception escape exactly when its last request got a reply without `answer` |
| BatchProcessor.NeverAborts | qa_processor.py:241-256 | when generation never raises anything but `APIError`, the loop visits every row |
| BatchProcessor.NoMissingAnswerNeverAborts | qa_processor.py:226-256 | as long as the service never replies without `answer`, one row's failure never ends the batch |
| BatchProcessor.ProcessRow | qa_processor.py:241-256 | one turn of the loop over a row that is not completed writes that row and updates the cache in place, as one step of `Run` specifies, or reports the escaping exception with the frame untouched |
| BatchProcessor.ProcessRows | qa_processor.py:226-256 | the loop over the frame writes each row and updates the cache in place, as `Run` specifies |
| BatchProcessor.ProcessQaFile | qa_processor.py:184-278 | `True` exactly when the server is up, the file validates and no exception escapes the loop; then the rows are the loop's result and completed plus errors is the row count; the cache is the loop's cache once the file validates, and unchanged otherwise |
| CsvExport.Records | public/js/csv-manager.js:131-133 | the header `Question`,`Answer` comes first, then one record per row in input order, question before answer |
| CsvExport.ConvertToCsv | public/js/csv-manager.js:130-136 | the definition of `convertToCSV`: the records, fields quoted with `"` doubled, joined by `,` and `'\n'`; its properties are `ConvertRoundTrip` and the escaping lemmas |
| CsvExport.ParseRecords | public/js/csv-manager.js:130-136 | an independent reader for quoted CSV as in section 2 of RFC 4180, with line-feed record separators; `ConvertRoundTrip` reads `convertToCSV`'s output with it |
| CsvExport.BodyRoundTrip | public/js/csv-manager.js:134 | reading an escaped field body back, with `""` collapsed to `"`, up to the closing quote recovers the field |
| CsvExport.FieldRoundTrip | public/js/csv-manager.js:134 | a quoted field reads back as the original text |
| CsvExport.FieldsRoundTrip | public/js/csv-manager.js:134 | a record's comma-joined quoted fields read back as its fields |
| CsvExport.RecordsRoundTrip | public/js/csv-manager.js:133-135 | records joined by `'\n'` read back as the records |
| CsvExport.ConvertRoundTrip | public/js/csv-manager.js:130-136 | reading the output of `convertToCSV` back gives the header and every row's question and answer |
| CsvExport.EscapeLength | public/js/csv-manager.js:134 | escaping adds exactly one character per double quote |
| CsvExport.EscapePaired | public/js/csv-manager.js:134 | every double quote of an escaped body belongs to a doubled pair |
| CsvExport.EscapeAddsOnlyQuotes | public/js/csv-manager.js:134 | escaping adds no character other than `"` |
| CsvExport.RecordField | public/js/csv-manager.js:132 | field 0 of each record after the header is its row's question and field 1 its answer |
| CsvExport.NoCarriageReturnAdded | public/js/csv-manager.js:133-135 | the output holds a carriage return exactly when some question or answer does: no CRLF is emitted |
| CsvManagement.ProcessOutcome | public/js/csv-manager.js:31-43 | a body reporting success installs its data and the "Processing complete!" status, and only such a body replaces the batch; a thrown error or a non-ok response sets an error status |
| CsvManagement.CommitOutcome | public/js/csv-manager.js:96-108 | a successful commit reports success; an unsuccessful body leaves the status; an error or non-ok response sets an error status |
| CsvManagement.WithAnswer | public/js/csv-manager.js:73-75 | the edit replaces that row's answer only, keeping its question and every other row |
| CsvManagement.EditBack | public/js/csv-manager.js:75 | editing an answer and then restoring it gives back the original batch |
| CsvManagement.EditedDownload | public/js/csv-manager.js:75 | after an edit, the downloaded CSV reads back with the edited answer in that row's record |
| CsvManagement.CsvManager.constructor | public/js/csv-manager.js:2-5 | a new manager has no batch |
| CsvManagement.CsvManager.ProcessCsv | public/js/csv-manager.js:13-47 | with no file: an error status, no request, nothing else changes; otherwise the batch and status follow `ProcessOutcome`, and only success enables commit |
| CsvManagement.CsvManager.SaveEdit | public/js/csv-manager.js:71-77 | the batch becomes `WithAnswer` of the old batch, and the status reports the update |
| CsvManagement.CsvManager.CommitToLibrary | public/js/csv-manager.js:81-110 | with no batch: an error status and no request; otherwise the status follows `CommitOutcome`, and only success disables commit; the batch is kept |
| CsvManagement.CsvManager.DownloadProcessedCsv | public/js/csv-manager.js:112-128 | a CSV exactly when there is a batch, and it is `convertToCSV` of it; without one, an error status and nothing else |
| QnaManager.OrEmpty | public/js/qna-manager.js:38-39 | a missing or empty value shows as `''`, any other as itself |
| QnaManager.TruthyCategories | public/js/qna-manager.js:49 | the filtered list holds exactly the categories that are present and non-empty |
| QnaManager.Dedup | public/js/qna-manager.js:49 | the definition of `[...new Set(xs)]`; its properties are `DedupElements` and `DedupOrder` |
| QnaManager.DedupElements | public/js/qna-manager.js:49 | `[...new Set(xs)]` holds exactly the elements of `xs`, none twice |
| QnaManager.DedupOrder | public/js/qna-manager.js:49 | `[...new Set(xs)]` lists elements in the order of their first occurrence |
| QnaManager.Categories | public/js/qna-manager.js:49 | the definition of the category list; its properties are `CategoriesSpec` |
| QnaManager.CategoriesSpec | public/js/qna-manager.js:49 | the category list has no duplicates, holds exactly the non-empty categories of the data, and keeps first-occurrence order |
| QnaManager.FilterOptions | public/js/qna-manager.js:54-55 | `All Categories` with value `''` comes first, then one option per category in list order |
| QnaManager.OptionValuesDistinct | public/js/qna-manager.js:54-55 | no two options share a value, and only `All Categories` has the empty value |
| QnaManager.TableRows | public/js/qna-manager.js:22-44 | the definition of the rows a table gets; its properties are `TableRowsSpec` and `TablesAgree` |
| QnaManager.TableRowsSpec | public/js/qna-manager.js:22-44 | missing or empty data renders one placeholder row; otherwise one row per entry in order, with id, question, answer, category and subcategory (missing as `''`), and a Delete button for that id only in the editing table |
| QnaManager.TablesAgree | public/js/qna-manager.js:40-42 | the two tables differ only in the Delete buttons, which the library table never has |
| QnaManager.QnaPage.UpdateTables | public/js/qna-manager.js:17-46 | each table on the page gets its rows, and a table missing from the page stays missing |
| QnaManager.QnaPage.UpdateCategoryFilters | public/js/qna-manager.js:48-57 | each filter on the page gets the options for the derived categories, and the tables are untouched |
| Text.ContainsAt | public/js/admin-panel.js:127 | `includes` holds exactly when the term occurs at some offset of the text |
| AdminPanel.Searched | public/js/admin-panel.js:123-129 | the definition of the rows after a search; its properties are `SearchedSpec` |
| AdminPanel.SearchedSpec | public/js/admin-panel.js:123-129 | a row is shown exactly when the lower-cased term occurs in its lower-cased text; the empty term shows every row; only visibility changes |
| AdminPanel.SearchIgnoresCase | public/js/admin-panel.js:124-126 | the search result does not depend on the case of the text or the term |
| AdminPanel.HandleSearch | public/js/admin-panel.js:123-129 | the loop sets every row's visibility in place, as `Searched` specifies |
| AdminPanel.CategoryFiltered | public/js/admin-panel.js:131-138 | the definition of the rows after a category filter; `HandleCategoryFilter` is proved equal to it |
| AdminPanel.HandleCategoryFilter | public/js/admin-panel.js:131-138 | the loop shows exactly the rows whose fourth cell equals the category, case-sensitively, or all rows with a fourth cell for the empty category; a row without a fourth cell keeps its visibility |
| AdminPanel.FilterByOption | public/js/admin-panel.js:133-135 | choosing an option of the filter shows exactly the rendered entries of that category, and `All Categories` shows every entry |
| AdminPanel.NextTheme | public/js/admin-panel.js:105 | the new theme is `light` exactly after `dark`, and `dark` after anything else, unset included |
| AdminPanel.ToggleTwice | public/js/admin-panel.js:104-108 | toggling twice from `dark` or `light` restores it |
| AdminPanel.LabelAsWritten | public/js/admin-panel.js:112 | the button label exactly as the source spells it |
| AdminPanel.Label | public/js/admin-panel.js:112 | the label the source evidently intends, with the sun and moon emoji |
| AdminPanel.LabelAsWrittenHasNoEmoji | public/js/admin-panel.js:112 | the button label as written shows neither the sun nor the moon emoji |
| AdminPanel.LabelOffersNextMode | public/js/admin-panel.js:112 | the intended label names the mode the next toggle switches to, behind that mode's emoji |
| AdminPanel.ThemeState.ToggleTheme | public/js/admin-panel.js:102-114 | the attribute becomes the next theme; the stored preference equals it; a present button gets the label |
| AdminPanel.FirstMatch | public/js/admin-panel.js:65-66 | the lookup finds the first element with the id in document order, or reports that none has it |
| AdminPanel.SwitchedTabs | public/js/admin-panel.js:53-71 | the definition of the tabs after `switchTab`; its properties are `SwitchedTabsSpec` |
| AdminPanel.SwitchedButtons | public/js/admin-panel.js:59-72 | the definition of the buttons after `switchTab`; its properties are `SwitchedButtonsSpec` |
| AdminPanel.SwitchedTabsSpec | public/js/admin-panel.js:53-71 | at most one tab is shown and active; no tab before it has the id, so it is the first with the id; and one is shown whenever some tab has the id |
| AdminPanel.SwitchedButtonsSpec | public/js/admin-panel.js:59-72 | at most one button is active; no button before it is for the id, so it is the first; and one is active whenever some button is for the id |
| AdminPanel.SwitchTab | public/js/admin-panel.js:52-73 | the two loops and the two lookups leave tabs and buttons as `SwitchedTabs` and `SwitchedButtons` specify |

## Left out

- Text.Lower: lower-cases ASCII letters only, while Python's `str.lower` and JavaScript's `toLowerCase` also map non-ASCII letters; the model has no Unicode case tables.
- QnaDatabase.FirstSimilar: the `SequenceMatcher` ratio above 0.8 (qa_processor.py:41-43, 73) is a predicate parameter, because it is floating-point arithmetic.
- QnaDatabase.QnaStore.Save: assumes the write to `qna_database.json` succeeds; the source logs a failed write and carries on (qa_processor.py:101-102), and a malformed cache file is not modelled.
- AnswerService.GenerateAnswer: the service reply's `answer` is a string; a `null` or non-string answer, which would make `format_answer` raise `AttributeError` and end the batch, is not modelled.
- QnaDatabase.QnaStore.Check: the cache file is well-formed JSON; a malformed file raises `JSONDecodeError` (qa_processor.py:61), which ends the batch, and is not modelled.
- AnswerService.GenerateAnswer: a cached answer is formatted again when it is read, so a cached bullet list comes back flattened by the whitespace step; the model reproduces this and states no idempotence of `format_answer` as a whole.
- AnswerService.RequestWithRetry: formats the answer after the loop instead of inside it; the outcome is the same.
- BatchProcessor.ProcessQaFile: the health check (`check_server`) is a boolean input; the HTTP requests, `time.sleep`, the `_processed.csv` writes (qa_processor.py:247-248, 259-260) and logging are left out.
- BatchProcessor.ProcessQaFile: the progress and ETA arithmetic (qa_processor.py:232-235) is left out, because it is floating point and only logged.
- BatchProcessor.ProcessQaFile: table cells are strings or missing; pandas' non-string cells (numbers read from the CSV), on which `question[:100]` raises `TypeError` and ends the batch, are not modelled.
- BatchProcessor.ProcessQaFile: the per-row `df.to_csv` is left out, so an `OSError` from it, which would end the batch, is not modelled.
- CsvValidation.Validate: `pd.read_csv` is an input (a table, or the exception it raised); CSV parsing by pandas is not modelled.
- The command-line entry point of qa_processor.py (lines 280-305) is argument parsing and logging around `validate_csv` and `process_qa_file`.
- CsvManagement.CsvManager: the DOM is reduced to the status line and the commit button's `disabled` flag; `showProgress`, `displayProcessedResults`, the Blob download and the call to `QnAManager.fetchQnAs` after a commit are left out.
- CsvManagement.CsvManager.SaveEdit: requires the index of an existing row, because the Save Edit buttons exist only for rendered rows.
- QnaManager.QnaPage.UpdateCategoryFilters: takes a non-null list; with `null` data the source throws at qna-manager.js:49, and the caller reports that error.
- QnaManager: `fetchQnAs`, `deleteEntry` and `showError` are network and DOM plumbing; the HTML markup of rows and options is reduced to their cells and values.
- AdminPanel.HandleSearch: a row's `textContent` is an input, because it is built from the HTML whitespace of the row template.
- AdminPanel.SwitchTab: `getElementById` and `querySelector('[data-tab=…]')` search the whole document and may find an element that is not a tab content or a tab button; the model looks among the tabs and the buttons only.
- AdminPanel.ThemeState.ToggleTheme: writes the intended label `Label`, not the garbled literal of admin-panel.js:112, which `LabelAsWritten` models (see "Findings").
- AdminPanel.FilterByOption: categories are plain text; the source interpolates them into HTML without escaping (qna-manager.js:38, 55), so a category holding `"`, `<` or `&` gets a different option value or cell text, and for those the stated visibility does not hold.
- QnaManager.TableRows: cell texts are the interpolated values; markup inside a question, answer or category would change the rendered cells, which is not modelled.
- CsvExport.ConvertToCsv: questions and answers are strings; `str.replace` throws on a `null` or non-string value (csv-manager.js:134), which is not modelled.
- AdminPanel: `handleNavigation`, `toggleSidebar` and the event wiring of `setupEventListeners` are left out; `localStorage` is the `stored` field.
- The server (`src/`) and `scripts/testInsert.js` are not part of this model: they are routing, client setup and database plumbing.

## Findings

| source | as written | input that shows it | evidently intended | confidence | as-written member | corrected member |
|---|---|---|---|---|---|---|
| public/js/admin-panel.js:112 | the label literals hold the UTF-8 bytes of the emoji read back as Windows-1252 text: `â˜€ï¸` for the sun (its last byte lost) and `ðŸŒ™` for the moon | `toggleTheme()` with theme `light`: the button reads `â˜€ï¸ Light Mode` | `☀️ Light Mode` after switching to dark, `🌙 Dark Mode` after switching to light | high, not executed | AdminPanel.LabelAsWrittenHasNoEmoji | AdminPanel.LabelOffersNextMode |
