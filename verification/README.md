# Invoice cleaning pipeline — a Dafny model

This project models the core of an invoice-processing tool written in
Python with pandas. The core has three parts:

- `limpar_dados` cleans a table of invoices (`utils/cleaner.py`);
- `gerar_relatorio` derives a per-client summary and an alerts view from the cleaned table (`utils/reporter.py`);
- `carregar_arquivos` normalises column names and renames alternative names to the expected ones (`utils/loader.py`).

A table is a set of column names plus a sequence of rows (`Tables.Table`).
A row maps each column name to a cell value (`Tables.Value`): missing
(pandas' NaN/NaT), a string, a number (`real`), a date (a day number) or a
boolean flag. Library behaviour the code calls but does not define is
passed in as parameters. Each parameter works on one cell, so a cell's
result never depends on the other rows (see "Left out" for dates):

- `Tables.Library` holds date parsing, number parsing, `round(·, 2)` and the string rendering of numbers and dates;
- `Loader.Unicode` holds `str.lower` and NFKD decomposition.

`str.strip`, `str.title` (on Latin-1 letters), `str.replace` and
`.encode("ASCII", "ignore")` are defined concretely in `Text`.

Modules:

- `Notes` is the audit helper `_adicionar_observacao` and the masked `.loc` write every stage uses.
- `Cleaner` has one function per stage of `limpar_dados`, each stated row by row:
  - drop empty rows;
  - coerce dates;
  - coerce amounts;
  - standardise `status` / `metodo_pagamento`;
  - check totals;
  - classify `alerta`;
  - flag duplicates;
  - sort by `data_emissao` with nulls last;
  - drop `_valor_calculado`;
  - finalise `observacoes`.
- `Pipeline` composes the stages into `Clean` and proves what survives to the end: amounts numeric, alerts matching the row's own total, duplicate flags, date order.
- `Reporter` holds the alerts filter and the group-by summary. The summary is computed in one pass over the rows, as a method, and proved equal to an independent per-client reference definition.
- `Loader` holds `_normalizar_colunas` and the rename heuristic.

Three properties of the code deserve mention:

- **Date notes.** The comment at `utils/cleaner.py:52` speaks of marking the rows whose date failed to convert. The code marks more: when a date column gains new parse failures, every row whose date is null after parsing is noted. This includes rows that were null before. The model follows the code.
- **Duplicates.** Missing ids count as equal to each other, as in pandas' `duplicated`, so two rows without an id are both flagged.
- **Idempotence.** Running `limpar_dados` twice does not give the result of running it once: the consistency, alert and duplicate notes are appended again. Idempotence is proved only for the text standardisation stage (`Cleaner.NormalizeTextIdempotent`).

The project has four findings. In each, the code as written is modelled
next to the evidently intended behaviour, and the rest of the model uses
the corrected definition (see "Findings").

## Model

| member | source | states |
|---|---|---|
| Cleaner.ValidateColumns | utils/cleaner.py:17-23 | true exactly when all eight required columns are in the table's column set |
| Cleaner.MissingColumns | utils/cleaner.py:19 | the missing names are exactly the required names absent from the columns, in the order of the required list |
| Notes.AddNote | utils/cleaner.py:25-28 | (corrected) the new note is `msg` alone when the row has no note, else the old note, `" \| "` and `msg`; it is never empty |
| Notes.NotesOnlyGrow | utils/cleaner.py:25-28 | appending keeps the old note as a prefix and ends with `msg` |
| Notes.AddNoteAsWritten | utils/cleaner.py:25-28 | (as written) a present truthy note is kept in front of `msg`; an absent or falsy one gives `msg` alone |
| Notes.AsWrittenDiffersOnlyOnMissingNote | utils/cleaner.py:26-28 | the written helper differs from the corrected one exactly when the note cell is missing (NaN), and then it yields `"nan \| " + msg` |
| Notes.NoteRow | utils/cleaner.py:54-56 | a masked note write: only the note cell changes; a noted row's text is the appended text; an un-noted row keeps its note cell, and when the write creates the column that cell is missing (NaN) |
| Notes.StageRow | utils/cleaner.py:65-68 | one stage on one row: the stage's cell takes its new value, the note is appended when the stage has a message, nothing else changes |
| Cleaner.DropEmptyRows | utils/cleaner.py:40-42 | the result keeps, in order, exactly the rows that are not entirely missing; each kept row occurs as often as in the input |
| Cleaner.DropEmptyRowsKeepsFullRows | utils/cleaner.py:42 | a table with no empty row is returned unchanged |
| Cleaner.ParseDate | utils/cleaner.py:49 | the parsed cell is a date or missing; missing stays missing, a date stays itself |
| Cleaner.MissingCountGrows | utils/cleaner.py:48-51 | for a parse that never revives a missing cell, the missing count grows exactly when some present cell became missing |
| Cleaner.DateFailuresCounted | utils/cleaner.py:48-51 | the code's test `after_na > before_na` holds exactly when some present date failed to parse |
| Cleaner.DateRow | utils/cleaner.py:49-56 | the date cell is parsed; the date note is appended exactly when the stage noted failures and the cell is missing after parsing; other cells are untouched |
| Cleaner.CoerceDates | utils/cleaner.py:46-56 | an absent column leaves the table unchanged; otherwise every row is transformed as `DateRow`, and the note column is added only when a new failure occurred |
| Cleaner.CoerceDatesKeepsDates | utils/cleaner.py:46-56 | a column that already holds dates is left unchanged and adds no note |
| Cleaner.ParseNumber | utils/cleaner.py:62 | a missing cell parses to nothing and a number parses to itself |
| Cleaner.AmountRow | utils/cleaner.py:62-68 | the amount becomes the parsed number, or 0.0 when it does not parse; exactly a malformed (present, unparsable) cell gains the "inválido -> convertido 0" note; a missing cell becomes 0.0 silently |
| Cleaner.CoerceAmount | utils/cleaner.py:59-68 | every row is transformed as `AmountRow`; the note column is added only when some cell is malformed |
| Cleaner.CoerceAmountKeepsNumbers | utils/cleaner.py:59-68 | a column of numbers is left unchanged |
| Cleaner.TextRow | utils/cleaner.py:71-89 | the cell becomes `title(strip(x))`; a note is appended exactly when title-casing changes the stripped text |
| Cleaner.StandardizedIsFixed | utils/cleaner.py:72-79 | a standardised value needs no further change: stripping and title-casing it again gives it back |
| Cleaner.PaddingIsQuiet | utils/cleaner.py:72-75 | a value that differs from a title-cased stripped text only by surrounding whitespace produces no note |
| Cleaner.NormalizeText | utils/cleaner.py:71-89 | an absent column leaves the table unchanged; otherwise every row is transformed as `TextRow` |
| Cleaner.NormalizeTextIdempotent | utils/cleaner.py:71-89 | standardising twice gives the same table as standardising once |
| Cleaner.StandardRowFixed | utils/cleaner.py:71-89 | a standardised row needs no title-casing and a second pass leaves it unchanged |
| Cleaner.TotalRow | utils/cleaner.py:92-98 | only the note changes, never `valor_total`; the note is appended exactly when `round(base + imposto, 2) != valor_total` |
| Cleaner.CheckTotals | utils/cleaner.py:91-99 | without all three amount columns the table is unchanged; otherwise every row is transformed as `TotalRow` |
| Cleaner.CheckTotalsQuietWhenConsistent | utils/cleaner.py:92-98 | when every total matches its recomputed value, the table is unchanged |
| Pipeline.TotalsAgree | utils/cleaner.py:91-99 | the consistency check changes no cell other than the note: `valor_total` is never overwritten |
| Cleaner.LabelInjective | utils/cleaner.py:102-112 | the five alert labels are distinct |
| Cleaner.AlertAmount | utils/cleaner.py:103-104 | an absent `valor_total` reads as 0.0, a numeric one as its own value, and a missing (NaN) one as no value |
| Cleaner.Classify | utils/cleaner.py:102-112 | exactly one alert holds; each alert holds exactly under its rule with the earlier rules failing (invalid, then < 0, then == 0, then > threshold, else OK) |
| Cleaner.AlertMessage | utils/cleaner.py:117-132 | Negativo, Zero and Acima do limite each have a note; OK and Valor inválido have none |
| Cleaner.AlertRow | utils/cleaner.py:114-132 | `alerta` holds the label of the row's classification; the matching note is appended exactly for the three noted alerts |
| Cleaner.ClassifyAlerts | utils/cleaner.py:114-132 | the `alerta` column is always added; every row is transformed as `AlertRow` |
| Cleaner.DuplicateRow | utils/cleaner.py:137-141 | `duplicata` holds the row's flag; a flagged row gets the duplicate note |
| Cleaner.MarkDuplicates | utils/cleaner.py:134-141 | without `id_fatura` the table is unchanged; otherwise every row gets a flag saying whether its id occurs more than once |
| Cleaner.MarkDuplicatesFlagsSharedIds | utils/cleaner.py:136-141 | a row is flagged exactly when some other row has the same `id_fatura`, and a flagged row carries the duplicate note |
| Cleaner.SharedIdIffRepeated | utils/cleaner.py:136 | an id occurs more than once in the column exactly when another row has the same id |
| Cleaner.DuplicateMask | utils/cleaner.py:136 | a counting pass over the ids flags exactly the positions whose id occurs at another position |
| Cleaner.IssueDateOrderIsTotalPreorder | utils/cleaner.py:145 | ordering by issue date with nulls last is total and transitive |
| Cleaner.SortByIssueDate | utils/cleaner.py:143-145 | the rows are a permutation of the input; present dates ascend and all nulls come after them; without `data_emissao` the table is unchanged |
| Cleaner.DropCalculatedColumn | utils/cleaner.py:147-149 | `_valor_calculado` is removed and nothing else changes |
| Cleaner.FinalizeNotes | utils/cleaner.py:156-157 | (corrected) every row ends with a string note: its note text when it has one, `""` when the cell is missing or absent; no other cell changes |
| Cleaner.FinalizeNotesAsWritten | utils/cleaner.py:157 | (as written) fails exactly when the table has no `observacoes` column; otherwise agrees with `FinalizeNotes` |
| Pipeline.CoerceAllDates | utils/cleaner.py:46-56 | each date column present holds, row by row, the parse of its input cell; nothing but the two date columns and the note changes, and only `observacoes` may be added |
| Pipeline.CoerceAmounts | utils/cleaner.py:59-68 | after the amount loop every present amount column is numeric |
| Pipeline.BothDatesParsed | utils/cleaner.py:46-56 | after both date blocks, each date column present holds, row by row, the parse of its input cell |
| Pipeline.NormalizeTexts | utils/cleaner.py:70-89 | nothing but `status`, `metodo_pagamento` and the note changes, and only `observacoes` may be added |
| Pipeline.BothTextsStandardized | utils/cleaner.py:70-89 | after both text blocks, each text column present holds, row by row, the stripped and title-cased text of its input cell |
| Pipeline.Standardize | utils/cleaner.py:40-99 | after stages 1-5 the amount columns are numeric and the only column that may have been added is `observacoes` |
| Pipeline.FlagRows | utils/cleaner.py:101-141 | after the alert and duplicate blocks, every row's alert matches its own total and every duplicate flag matches the id column |
| Pipeline.PrepareGuarantees | utils/cleaner.py:40-145 | after sorting, the amounts stay numeric, alerts and duplicate flags stay consistent, and issue dates are ascending with nulls last |
| Pipeline.Clean | utils/cleaner.py:30-159 | (corrected) one row per non-empty input row; the columns are the input's minus `_valor_calculado` plus `alerta`, `duplicata` (when ids exist) and `observacoes`; every note is a string |
| Pipeline.CleanGuarantees | utils/cleaner.py:30-159 | the cleaned table has numeric amounts, alerts matching each row's total, consistent duplicate flags and issue dates ascending with nulls last |
| Pipeline.CleanFlagsSharedIds | utils/cleaner.py:135-145 | in the cleaned table a row is flagged exactly when another row shares its `id_fatura` |
| Pipeline.CleanAlerts | utils/cleaner.py:102-114 | in the cleaned table `alerta` is the classification of the row's own numeric `valor_total`, Zero when the column is absent, and never Valor inválido |
| Pipeline.CleanAsWritten | utils/cleaner.py:157 | (line 157 as written; the stages use the corrected note helper) fails exactly when no stage created `observacoes` and the input lacked it; otherwise equals `Clean` |
| Pipeline.UnnotedCleanIsEmpty | utils/cleaner.py:157 | (corrected) when no stage wrote a note, every cleaned row has the empty note |
| Pipeline.SpotlessInvoiceRaisesKeyError | utils/cleaner.py:157 | for a one-row invoice that has every required column and that no stage notes, line 157 as written fails, while the corrected pipeline returns the row with an empty note |
| Reporter.AlertsView | utils/reporter.py:28 | with `alerta`, the view keeps, in input order, exactly the rows whose alert is not "OK", each as often as in the input; without `alerta` it is empty |
| Reporter.AllRaisedViewIsWhole | utils/reporter.py:28 | when every row is raised, the view is the whole table |
| Reporter.CleanedRowRaised | utils/reporter.py:28 | a row labelled by classification is in the view exactly when its alert is not OK |
| Reporter.Summarize | utils/reporter.py:15-26 | empty without `nome_cliente` or `valor_total`; fails when `id_fatura` is missing; otherwise one entry per distinct present client name, each equal to the reference sum/count/mean, in non-increasing order of total |
| Reporter.FinishedTally | utils/reporter.py:16-21 | a running tally of a client's rows finishes to the reference sum of `valor_total`, count of present `id_fatura` and mean of present totals |
| Reporter.SummaryOfTallies | utils/reporter.py:16-23 | the sorted finished tallies match the reference, name distinct clients, and name every client |
| Loader.NormalizeNameAsWritten | utils/loader.py:27-30 | (as written) the normalised name is plain ASCII |
| Loader.NormalizeName | utils/loader.py:23-32 | (corrected) the normalised name is plain ASCII and has no space |
| Loader.NormalizeNameAgrees | utils/loader.py:27-30 | both orders give the same name whenever the decomposition brings in no space |
| Loader.KeepAsciiReplace | utils/loader.py:27-30 | dropping non-ASCII characters commutes with replacing spaces by `_` |
| Loader.AsciiName | utils/loader.py:27-30 | on an ASCII name, both orders yield the name stripped, lower-cased and with every space replaced by `_`, so it has no space and no upper-case letter |
| Loader.NoBreakSpaceSurvives | utils/loader.py:27-30 | (as written) a header whose words are joined by a no-break space comes out joined by a plain space; the corrected order joins them by `_` |
| Loader.NoBreakValorTotal | utils/loader.py:27-30 | `valor` + no-break space + `total` misses `valor_total` as written and reaches it when corrected |
| Loader.NormalizeColumns | utils/loader.py:23-32 | (corrected) same length and order as the input; every name is normalised in the corrected order, so it is ASCII-only and without spaces |
| Loader.InnerAt | utils/loader.py:64-70 | one inner loop assigns exactly the firing columns to the expected name and keeps the other entries |
| Loader.OuterAt | utils/loader.py:59-70 | a column is a key exactly when some absent expected name fires for it, and it maps to the last such name |
| Loader.LastFiringAt | utils/loader.py:59-70 | an absent firing name with no later absent firing name is the one a column ends up mapped to |
| Loader.MappingTargetsAbsent | utils/loader.py:60-62 | every key is a column and every target is an expected name not already among the columns |
| Loader.PresentNameKept | utils/loader.py:60-66 | an expected name already present is not renamed |
| Loader.StripMatchMapped | utils/loader.py:65-66 | a column equal to an absent expected name once underscores are removed is mapped to that name |
| Loader.AliasOnlyToTargets | utils/loader.py:68-70 | (as written) an English name is mapped only to one of the five alias targets |
| Loader.AliasFiresPaired | utils/loader.py:68-70 | (corrected) an English name fires for its own counterpart and no other expected name |
| Loader.AliasMappedToCounterpart | utils/loader.py:68-70 | (corrected) an English name whose counterpart is absent is mapped to that counterpart |
| Loader.AliasesCollapseAsWritten | utils/loader.py:59-70 | (as written) with `valor_total` absent, every English column is mapped to `valor_total` |
| Loader.InvoiceAndClientCollapse | utils/loader.py:59-70 | `invoice_id` and `client_name` both go to `valor_total` as written, and to `id_fatura` and `nome_cliente` when corrected |
| Loader.ExpectedForm | utils/loader.py:5-21 | the underscore-free form of each expected name |
| Loader.FormsDistinct | utils/loader.py:5-21 | no two expected or English names share an underscore-free form |
| Loader.NamesDistinct | utils/loader.py:5-21 | the expected names are distinct and none is an English name |
| Loader.Rename | utils/loader.py:71-72 | renaming keeps the number of columns and every row, and changes exactly the mapped names |
| Loader.RenameOnlyNames | utils/loader.py:71-72 | after the heuristic the rows are unchanged, every column keeps its name or takes an expected name that was missing, and present expected names stay in place |
| Text.Trim | utils/cleaner.py:72 | the result is a slice of the input with only whitespace before and after it, and it neither starts nor ends with whitespace |
| Text.TrimOfPadded | utils/cleaner.py:72 | stripping whitespace padding gives back the padded text |
| Text.Title | utils/cleaner.py:73 | keeps the length; a cased character is upper-cased when it starts the text or follows an uncased character, lower-cased when it follows a cased one, and every other character is kept |
| Text.TitleIdempotent | utils/cleaner.py:73 | title-casing twice equals title-casing once |
| Text.KeepAscii | utils/loader.py:30 | the result is a subsequence of the input, made of ASCII characters only, and as long as the input has ASCII characters: exactly those characters, in order |
| Text.KeepAsciiCounts | utils/loader.py:30 | each ASCII character is kept as often as it occurs in the input, and no other character is kept |
| Seqs.Sort | utils/cleaner.py:145 | the result is a sorted permutation of the input |

## Left out

- Reading files and concatenating them (`utils/loader.py:39-56`) is file I/O and is not modelled. The rename heuristic starts from the concatenated column names.
- Writing the Excel report (`utils/reporter.py:12, 30-33`), the e-mail sender and `main.py` are I/O and orchestration.
- Logging calls are side effects only.
- The internals of pandas' `to_datetime`, `to_numeric`, number and date rendering, and `round(·, 2)` are parameters (`Tables.Library`). So are Unicode `lower` and NFKD (`Loader.Unicode`).
- Cleaner.ParseDate: treats date parsing as a function of one cell (`Tables.Library.toDate`). pandas 2.0 and later `to_datetime(..., errors="coerce")` (`utils/cleaner.py:49`) infers one format from the column's first non-null string and turns cells in any other format into NaT. So "15/01/2024" after "2024-01-15" becomes NaT and gets the date note, which the model, and `Cleaner.CoerceDates` and `Pipeline.BothDatesParsed` that build on it, do not capture. Whether this happens depends on the pandas version.
- Floating point is modelled as exact `real`. NaN is the `Missing` value.
- Text.Title: title-cases the Latin-1 letters only. Letters outside Latin-1 count as uncased and are kept, so the letter after one of them starts a new word: "Ωmega" becomes "ΩMega", where Python gives "Ωmega". At a word start, µ, ß and ÿ are kept, while Python gives "Μ", "Ss" and "Ÿ" (the last two leave Latin-1, and "Ss" is two characters long).
- Pipeline.NormalizeTexts: its contract only frames the change (which columns may differ). The values the text columns take are stated by `Pipeline.BothTextsStandardized`.
- Pipeline.CleanAsWritten: only line 157 is modelled as written. The stages before it use the corrected note helper `Notes.AddNote`, so a NaN note is not turned into `"nan | ..."` here.
- Cleaner.TextRow: inherits the limits of Text.Title. A `status` or `metodo_pagamento` holding letters outside Latin-1, or a word starting with µ, ß or ÿ, may be rewritten and noted differently from Python. Accented Portuguese words such as "Cartão" and "Transferência" are handled as Python does.
- `Cleaner.SortByIssueDate`: claims only permutation and order. Ties keep no promised order, because pandas' default quicksort is not stable.
- `Cleaner.CheckTotals`: the `_valor_calculado` column is not materialised. It is computed per row and dropped at the end, so the visible result is the same.
- Cleaner.AlertAmount: requires `valor_total` to be numeric or missing. A string total would make Python's comparison raise. In the pipeline the amount coercion guarantees this (`Pipeline.NumericIsReadable`).
- `Reporter.Summarize`: requires every `valor_total` to be numeric or missing. pandas would concatenate strings in `sum`. After `limpar_dados` the column is numeric.
- `Reporter.Summarize`: orders clients only by total. The relative order of clients with equal totals is not claimed.
- Loader.NormalizeColumns: column names are strings. `str(c)` on non-string headers is not modelled.
- The caller's table is never mutated, because every operation is a pure function. `df.copy()` has no counterpart.
- Idempotence of the whole cleaning pipeline is not claimed, because it does not hold (see above).

## Findings

| source | as written | input that shows it | evidently intended | confidence | as-written member | corrected member |
|---|---|---|---|---|---|---|
| utils/cleaner.py:26 | `not row.get("observacoes")` is false for a NaN note, so the helper returns `"nan \| " + msg` | a row left NaN in `observacoes` when an earlier stage created the column for other rows only, then noted by a later stage | a missing note counts as empty and the helper returns `msg` | high, not executed | Notes.AsWrittenDiffersOnlyOnMissingNote | Notes.AddNote |
| utils/cleaner.py:157 | `df["observacoes"]` raises KeyError when no stage wrote a note and the input had no such column | one invoice with a client id and name, valid dates, base 100, tax 10, total 110, a unique id and no `observacoes` column | the column is created with empty notes | high, not executed | Pipeline.SpotlessInvoiceRaisesKeyError | Pipeline.UnnotedCleanIsEmpty |
| utils/loader.py:68-70 | every English name fires for every absent alias target, and later targets overwrite earlier ones | columns `invoice_id` and `client_name` only: both are renamed to `valor_total` | each English name is renamed to its own counterpart (`invoice_id` → `id_fatura`, `client_name` → `nome_cliente`) | high, not executed | Loader.InvoiceAndClientCollapse | Loader.AliasMappedToCounterpart |
| utils/loader.py:27-30 | spaces are replaced before NFKD, so a no-break space decomposed to a plain space survives | the header `valor` + U+00A0 + `total` becomes `valor total`, not `valor_total` | the normalised name contains no spaces, as the docstring says | medium, not executed | Loader.NoBreakSpaceSurvives | Loader.NormalizeName |
