# Competitor intake of the olympiad backend, in Dafny

The backend registers school competitors for an olympiad from CSV files, in two independent
generations, and it has two smaller routines. This project models four parts and proves
what each one promises.

* **Strict intake** (`CompetitorRegistrationController`), modelled in four modules:
  * `StrictIntake` and `StrictUpload`: the UTF-8 byte order mark of the file is dropped.
    The header must be the 14 expected labels in order. A header that has one more
    `Errores` column, unquoted, anywhere among them is also accepted. Each non-blank data line is checked for a CI
    already stored from the same file, then validated, and finally either stored or
    recorded as an error.
  * `StrictRules`: `validateContestantData` collects the failure of every rule without
    stopping at the first one.
  * `StrictStore`: `createContestantAndRegistration` inserts the contestant. It then adds
    one registration per listed area that the olympiad offers.
  * `StrictReport`: `generateErrorCsv` writes the `<stem>-errores.csv` report. In
    row-error mode it has one line per error. In header-error mode it has every original
    line with a note.
  * `uploadCsv` adds up the per-file counters over all files on one store.
* **Upsert intake** (`Api/CompetitorUploadController::processCsvFile`), modelled in
  `UploadHeader`, `UploadIntake` and `UploadRun`:
  * header labels are normalised (U+FEFF removed, trimmed, lower-cased) and each expected
    label is mapped to its first column;
  * a file without a required label is refused with the labels it lacks;
  * a row missing its name, document, area or level is reported by its ordinal;
  * any other row upserts its contestant by CI and finds or creates the tutor, school,
    level and grade. It then finds or creates one inscription (CI, area, level) per
    distinct area of the row, and counts repeated areas as skipped.
* **Password generation** (`Api/AuthController::generate_password`), in `Password`.
* **Area assignment** (`Olympiad::assignAreas`), in `Olympiads`: it is refused when a
  requested area is already attached. Otherwise it attaches the areas and finds or
  creates the phases `Fase 1 .. n` and the links from each olympiad-area to them.

The database is modelled as values:
* contestants are keyed by CI;
* catalogs are sets of names;
* inscriptions and relation rows are sets of tuples;
* registrations are a sequence.

Each loop of the source is a Dafny method over a class holding these tables (`Database`,
`UploadStore`, `Tables`) or over local variables. Each method is proved to compute exactly
what a recursive specification function describes. The properties are lemmas about those
functions.

Strings are `seq<char>`. In the strict intake and in `generate_password` one `char` stands
for one byte, as PHP strings are byte strings; `á` is thus two characters. The upsert
intake reads decoded code points, so U+FEFF is one character there. `Php` collects the PHP
built-ins the code relies on: `empty()`, `trim()`, `strtoupper`, `preg_split`,
`implode`, `array_search`, `str_getcsv` without enclosures, and integer to decimal text.

Points where the model follows the code rather than its evident design:
* Only the first `Errores` column is taken out of a header, because `array_search`
  returns one position.
* The row loop of the intake (`Scan`, used by `ProcessFile`, `AcceptedFile`, `ProcessAll`,
  `UploadOf` and by the methods of `StrictUpload`) is the corrected loop: a column-count
  mismatch is recorded and the line is skipped. The source goes on into `array_combine`,
  which makes the whole request fail; that behaviour is modelled separately by
  `ScanAsWritten`. See Findings.
* The two generations answer a repeated CI differently. The strict one reports a
  duplicate within a file and refuses a CI already stored. The upsert one updates the
  stored contestant.

## Model

| member | source | states |
|---|---|---|
| StrictIntake.StripBom | app/Http/Controllers/CompetitorRegistrationController.php:161-164 | a line that starts with the three bytes EF BB BF loses exactly those three bytes; any other line is unchanged |
| StrictIntake.FileLines | app/Http/Controllers/CompetitorRegistrationController.php:158-164 | a file always has a first (header) line, whatever its content |
| StrictIntake.DropFirstIff | app/Http/Controllers/CompetitorRegistrationController.php:176-183 | taking the first 'Errores' out of a header gives a given label list without 'Errores' exactly when the header is that list or that list with one 'Errores' inserted at some position |
| StrictIntake.HeaderAcceptedIff | app/Http/Controllers/CompetitorRegistrationController.php:169-186 | a header is accepted exactly when it is the 14 expected labels in order, or those labels with one 'Errores' inserted anywhere |
| StrictIntake.Combine | app/Http/Controllers/CompetitorRegistrationController.php:236 | every label of the header is a key of the combined record |
| StrictIntake.CombineAt | app/Http/Controllers/CompetitorRegistrationController.php:236 | with distinct labels, each cell is found under its own label |
| StrictIntake.TrimAll | app/Http/Controllers/CompetitorRegistrationController.php:237-242 | trimming the record keys keeps one key per label |
| StrictIntake.ValidationSound | app/Http/Controllers/CompetitorRegistrationController.php:258-263 | a record that passes validation has a filled CI that is not yet stored, so storing it never collides |
| StrictIntake.JudgeAccounts | app/Http/Controllers/CompetitorRegistrationController.php:248-267 | a counted data line is either stored or gets exactly one error entry, never both; earlier errors are kept and the new one carries row number i + 1 |
| StrictIntake.StepAccounts | app/Http/Controllers/CompetitorRegistrationController.php:217-267 | a blank line changes no counter, and any other line is stored or reported exactly once |
| StrictIntake.ScanAccounts | app/Http/Controllers/CompetitorRegistrationController.php:217-268 | after the loop, stored lines plus error entries equal the number of non-blank data lines; errors are only appended, and each one's row number is between 2 and the line count |
| StrictIntake.StoredTracks | app/Http/Controllers/CompetitorRegistrationController.php:260-263 | storing a valid row adds exactly its new CI to the store and to the CIs seen, and keeps every earlier contestant |
| StrictIntake.JudgeTracks | app/Http/Controllers/CompetitorRegistrationController.php:248-267 | one judged line keeps the link between the CIs seen and the contestants this file added |
| StrictIntake.DuplicateSkipped | app/Http/Controllers/CompetitorRegistrationController.php:249-256 | a filled CI already stored from this file gives exactly one entry with row number i + 1 and the duplicate message; the result is the same whatever the validator, so the record is not validated, and the store, the stored count and the CIs seen stay |
| StrictIntake.JudgeKeeps | app/Http/Controllers/CompetitorRegistrationController.php:248-267 | a line that is not stored leaves the store, the stored count and the CIs seen alone and adds one entry for its row, with the duplicate message or the joined validation messages; a stored line adds no error and inserts its record |
| StrictIntake.StepTracks | app/Http/Controllers/CompetitorRegistrationController.php:217-267 | one iteration keeps the link between the CIs seen, the stored count and the store's growth |
| StrictIntake.ScanTracks | app/Http/Controllers/CompetitorRegistrationController.php:217-268 | the whole loop keeps that link: the seen set grows only on success, and each stored line adds one fresh contestant |
| StrictIntake.TracksGrows | app/Http/Controllers/CompetitorRegistrationController.php:260-263 | that link implies that the store keeps everything it had and gains exactly `successful` new contestants |
| StrictIntake.ScanFacts | app/Http/Controllers/CompetitorRegistrationController.php:211-268 | from an empty start, successes plus errors equal the non-blank data lines, and the store gains one new contestant per success |
| StrictIntake.AcceptedFileFacts | app/Http/Controllers/CompetitorRegistrationController.php:205-283 | for an accepted header: no header error; total_records is the line count minus one; successes plus competitor errors count the non-blank lines; a report exists exactly when an error was recorded, and it is named `<stem>-errores.csv` |
| StrictIntake.ProcessFileFacts | app/Http/Controllers/CompetitorRegistrationController.php:155-284 | one header error exactly when the header is refused, and then nothing is counted or stored; otherwise every non-blank line is stored or reported; total_records is the line count minus one; the store only grows, by one contestant per success |
| StrictIntake.RowStepAsWrittenIff | app/Http/Controllers/CompetitorRegistrationController.php:228-236 | the loop as written fails exactly on a non-blank line whose cell count differs from the header's, and otherwise does what the corrected step does |
| StrictIntake.ScanAsWrittenIff | app/Http/Controllers/CompetitorRegistrationController.php:217-268 | the written loop fails exactly when some data line has the wrong cell count, and otherwise ends where the corrected loop ends |
| StrictIntake.MismatchAborts | app/Http/Controllers/CompetitorRegistrationController.php:229-236 | for the line "x" under the expected header, the written step fails, while the corrected one records "Row has 1 columns but header has 14 columns…" for row i + 1 and goes on |
| StrictIntake.Present | app/Http/Controllers/CompetitorRegistrationController.php:57-59 | a file is kept exactly when it was uploaded, and no entry is added |
| StrictIntake.AddAgrees | app/Http/Controllers/CompetitorRegistrationController.php:84-101 | adding a file's result keeps the totals consistent: a file with errors has header or competitor errors but not both, each such file lists its report, and each header error is a file of its own |
| StrictIntake.ProcessAll | app/Http/Controllers/CompetitorRegistrationController.php:81-83 | one result per file, in upload order |
| StrictIntake.ProcessAllAgrees | app/Http/Controllers/CompetitorRegistrationController.php:81-102 | over any batch the totals are consistent, and the store keeps everything and gains exactly total_successful contestants |
| StrictIntake.ProcessAllStep | app/Http/Controllers/CompetitorRegistrationController.php:81-83 | each file is processed on the store the previous files left |
| StrictIntake.TallyAppend | app/Http/Controllers/CompetitorRegistrationController.php:84-101 | the totals are sums over the files: the totals of a batch are the field-by-field sum of the totals of its two parts, and the report names are concatenated |
| StrictIntake.TallyOne | app/Http/Controllers/CompetitorRegistrationController.php:84-117 | a file counts toward files_with_errors exactly when it has header or competitor errors; total_errors is competitor errors plus header errors |
| StrictIntake.UploadFacts | app/Http/Controllers/CompetitorRegistrationController.php:57-140 | the upload is refused exactly when no file is present, and then nothing is stored; otherwise it reports every present file, the totals are consistent, and the store gains one contestant per registered row |
| StrictUpload.JudgeRow | app/Http/Controllers/CompetitorRegistrationController.php:248-267 | the duplicate check, the validation and the insert on the database object give exactly the store and counters of `StrictIntake.Judge` |
| StrictUpload.HandleLine | app/Http/Controllers/CompetitorRegistrationController.php:218-267 | one loop iteration on the database object matches `StrictIntake.RowStep` |
| StrictUpload.ProcessRows | app/Http/Controllers/CompetitorRegistrationController.php:211-268 | the row loop leaves the database, errors, success count and seen CIs that `StrictIntake.Scan` describes |
| StrictUpload.ProcessAccepted | app/Http/Controllers/CompetitorRegistrationController.php:205-283 | the accepted-header path gives the result and store of `StrictIntake.AcceptedFile` |
| StrictUpload.HeaderWithoutErrors | app/Http/Controllers/CompetitorRegistrationController.php:176-183 | the 'Errores' position is the first one, and the header to validate is the header without it |
| StrictUpload.RejectFile | app/Http/Controllers/CompetitorRegistrationController.php:186-203 | the refused-header result of `StrictIntake.RejectedFile` |
| StrictUpload.ProcessCsvFile | app/Http/Controllers/CompetitorRegistrationController.php:155-284 | processCsvFile on the database object yields the result and new store of `StrictIntake.ProcessFile` |
| StrictUpload.CountFile | app/Http/Controllers/CompetitorRegistrationController.php:84-101 | the counter updates for one file are `StrictIntake.AddResult` |
| StrictUpload.ProcessFiles | app/Http/Controllers/CompetitorRegistrationController.php:81-102 | the foreach leaves the results and store of `StrictIntake.ProcessAll` and totals equal to their tally |
| StrictUpload.UploadCsv | app/Http/Controllers/CompetitorRegistrationController.php:52-140 | the response and the new store are those of `StrictIntake.UploadOf` |
| StrictRules.RequiredFailures | app/Http/Controllers/CompetitorRegistrationController.php:294-311 | at most one failure per required field, all of them belonging to the required-field rule |
| StrictRules.RequiredFailuresNone | app/Http/Controllers/CompetitorRegistrationController.php:307-311 | no required-field message exactly when every required cell passes `empty()` as filled |
| StrictRules.FormatFailure | app/Http/Controllers/CompetitorRegistrationController.php:313-325 | a format rule reports only its own message, and only for a filled value |
| StrictRules.CiFailures | app/Http/Controllers/CompetitorRegistrationController.php:327-336 | the CI checks report only CI failures |
| StrictRules.GenderFailures | app/Http/Controllers/CompetitorRegistrationController.php:338-343 | the gender check reports only the gender failure |
| StrictRules.EmailFailures | app/Http/Controllers/CompetitorRegistrationController.php:366-375 | the e-mail checks report only e-mail failures |
| StrictRules.AreaChecks | app/Http/Controllers/CompetitorRegistrationController.php:385-398 | at most one failure per listed area, each an unknown or not-offered area |
| StrictRules.AreaChecksNone | app/Http/Controllers/CompetitorRegistrationController.php:385-398 | the per-area checks report nothing exactly when every listed area exists and is offered by the olympiad |
| StrictRules.AreaFailures | app/Http/Controllers/CompetitorRegistrationController.php:377-398 | the area checks report only area failures |
| StrictRules.GradeFailures | app/Http/Controllers/CompetitorRegistrationController.php:400-405 | the grade check reports only the grade failure |
| StrictRules.LevelFailures | app/Http/Controllers/CompetitorRegistrationController.php:407-416 | the level checks report only level failures |
| StrictRules.Piece | app/Http/Controllers/CompetitorRegistrationController.php:289-430 | the failures of rule j all belong to rule j, for the 14 rules in the order they are checked |
| StrictRules.Pieces | app/Http/Controllers/CompetitorRegistrationController.php:289-430 | all 14 rules are evaluated, each on its own |
| StrictRules.FlattenEmpty | app/Http/Controllers/CompetitorRegistrationController.php:291 | the accumulated list is empty exactly when every rule reported nothing |
| StrictRules.InFlatten | app/Http/Controllers/CompetitorRegistrationController.php:291 | a failure is in the accumulated list exactly when the rule it belongs to reported it |
| StrictRules.InFailures | app/Http/Controllers/CompetitorRegistrationController.php:289-435 | validation does not stop early: each failure is reported exactly when its own rule reports it, whatever the other rules do |
| StrictRules.PieceIff | app/Http/Controllers/CompetitorRegistrationController.php:289-430 | each rule reports nothing exactly when its condition, stated independently, holds |
| StrictRules.RequiredPresentCells | app/Http/Controllers/CompetitorRegistrationController.php:294-311 | when the required rule passes, each of the ten required cells is filled |
| StrictRules.ValidIffAcceptable | app/Http/Controllers/CompetitorRegistrationController.php:432-435 | a row is valid exactly when all 14 rule conditions hold |
| StrictRules.ValidRowRegistersAll | app/Http/Controllers/CompetitorRegistrationController.php:258-261 | a valid row has a fresh, filled CI, names one to three areas and gets a registration for each, and has a grade and a level |
| StrictRules.CiRule | app/Http/Controllers/CompetitorRegistrationController.php:328-336 | 'CI Document must be 8-13 digits' exactly for a filled CI that is not 8 to 13 digits; 'CI Document already exists' exactly for a well-formed CI already stored |
| StrictRules.GenderRule | app/Http/Controllers/CompetitorRegistrationController.php:339-341 | 'Gender must be F or M' exactly for a filled gender whose upper case is neither |
| StrictRules.PhoneRule | app/Http/Controllers/CompetitorRegistrationController.php:360-362 | the phone failure exactly for a filled phone that is not eight digits |
| StrictRules.TutorNumberRule | app/Http/Controllers/CompetitorRegistrationController.php:426-428 | the tutor number failure exactly for a filled number that is not eight digits |
| StrictRules.AreaCountRule | app/Http/Controllers/CompetitorRegistrationController.php:378-383 | 'Maximum 3 areas allowed' exactly when a filled AREA cell splits into more than three names |
| StrictRules.LevelRule | app/Http/Controllers/CompetitorRegistrationController.php:407-416 | 'Level is required' exactly when the level is empty, and such a row is never valid |
| StrictRules.DigitsWithoutNewline | app/Http/Controllers/CompetitorRegistrationController.php:329 | for a value without a newline, a digit pattern means a length between the bounds and only ASCII digits |
| StrictRules.DollarAllowsFinalNewline | app/Http/Controllers/CompetitorRegistrationController.php:329 | the pattern's `$` accepts eight digits followed by one newline, although that value is not all digits; this is why `DigitsWithoutNewline` needs its newline-free hypothesis, which every modelled cell meets because lines are split at each newline |
| StrictStore.AreaNames | app/Http/Controllers/CompetitorRegistrationController.php:466 | one area name per piece of the AREA cell between runs of ',' and ';' |
| StrictStore.RegistrationsFor | app/Http/Controllers/CompetitorRegistrationController.php:466-483 | at most one registration per listed area, each for this contestant, olympiad, grade and level |
| StrictStore.RegistrationsForAll | app/Http/Controllers/CompetitorRegistrationController.php:466-483 | every listed area gets a registration exactly when each of them exists and is offered by the olympiad |
| StrictStore.CreatedShape | app/Http/Controllers/CompetitorRegistrationController.php:441-484 | creating a contestant adds exactly its CI, changes no earlier contestant nor the area catalogs, and only appends registrations of that contestant in that olympiad |
| StrictStore.Database.constructor | app/Http/Controllers/CompetitorRegistrationController.php:441-484 | the database object starts in the given state |
| StrictStore.Database.CreateContestantAndRegistration | app/Http/Controllers/CompetitorRegistrationController.php:441-484 | the insert and its area loop leave exactly the state `StrictStore.Created` describes |
| StrictStore.Database.AddRegistrations | app/Http/Controllers/CompetitorRegistrationController.php:466-483 | the area loop appends exactly the registrations of `StrictStore.RegistrationsFor` and nothing else changes |
| StrictReport.Escape | app/Http/Controllers/CompetitorRegistrationController.php:499 | doubling quotes never shortens a value and adds no newline |
| StrictReport.UnescapeEscape | app/Http/Controllers/CompetitorRegistrationController.php:499 | reading the doubled quotes back gives the original value |
| StrictReport.QuoteRoundTrip | app/Http/Controllers/CompetitorRegistrationController.php:498-500 | a field taken out of its quotes and unescaped is the original value |
| StrictReport.CsvLineNoNewline | app/Http/Controllers/CompetitorRegistrationController.php:498-500 | fields without newlines give a report line without newlines |
| StrictReport.LastIndexOf | app/Http/Controllers/CompetitorRegistrationController.php:491-492 | the position found holds the character and none follows it; with no position, the character does not occur |
| StrictReport.ReportNameOf | app/Http/Controllers/CompetitorRegistrationController.php:491-492 | the report of `<stem>.<ext>` is named `<stem>-errores.csv` |
| StrictReport.HeaderError | app/Http/Controllers/CompetitorRegistrationController.php:521-527 | the header error found is the first recorded entry of row 1, as the `foreach` with `break` picks it; if none is found, no entry has row 1 |
| StrictReport.DropColumn | app/Http/Controllers/CompetitorRegistrationController.php:511-515 | taking out the 'Errores' cell never lengthens a row |
| StrictReport.CellsOf | app/Http/Controllers/CompetitorRegistrationController.php:553-555 | an error row has one cell per header field |
| StrictReport.ErrorRows | app/Http/Controllers/CompetitorRegistrationController.php:549-562 | one report row per recorded error |
| StrictReport.AnnotatedRowCount | app/Http/Controllers/CompetitorRegistrationController.php:503-548 | in header-error mode the report has one line per non-blank original data line |
| StrictReport.ErrorLinesOneLine | app/Http/Controllers/CompetitorRegistrationController.php:549-562 | entries without newlines give report lines without newlines |
| StrictReport.RowModeLines | app/Http/Controllers/CompetitorRegistrationController.php:495-562 | read back line by line, a row-mode report is the header plus 'Errores', then exactly one line per error in order, each the error's cells under the header followed by its message |
| StrictReport.FindHeaderError | app/Http/Controllers/CompetitorRegistrationController.php:519-528 | the search loop finds `StrictReport.HeaderError` |
| StrictReport.AnnotatedStep | app/Http/Controllers/CompetitorRegistrationController.php:505-547 | a blank original line adds no report line; any other adds its cells without 'Errores' and its note |
| StrictReport.AnnotateLine | app/Http/Controllers/CompetitorRegistrationController.php:508-544 | one original line becomes its cells without the 'Errores' cell, followed by its note |
| StrictReport.AnnotateLines | app/Http/Controllers/CompetitorRegistrationController.php:503-548 | the header-error loop writes the annotated lines of `StrictReport.AnnotatedRows` |
| StrictReport.ErrorLine | app/Http/Controllers/CompetitorRegistrationController.php:552-556 | one error row is the cell of each header field, then the message |
| StrictReport.ListErrors | app/Http/Controllers/CompetitorRegistrationController.php:549-562 | the row-error loop writes one line per error, in order |
| StrictReport.GenerateErrorCsv | app/Http/Controllers/CompetitorRegistrationController.php:489-568 | the report built by the loops is `StrictReport.ErrorReport`: the header line, then the annotated originals or one line per error |
| UploadHeader.RemoveBom | app/Http/Controllers/Api/CompetitorUploadController.php:128 | no U+FEFF is left in a label |
| UploadHeader.NormalizeHeader | app/Http/Controllers/Api/CompetitorUploadController.php:127-130 | one normalised label per header cell |
| UploadHeader.BuildIndex | app/Http/Controllers/Api/CompetitorUploadController.php:133-137 | the loop builds exactly the index map of `UploadHeader.IndexMap` |
| UploadHeader.InIndexMap | app/Http/Controllers/Api/CompetitorUploadController.php:133-137 | a label is in the index exactly when it is expected and occurs in the normalised header, and then it maps to the first column holding it |
| UploadHeader.InMissing | app/Http/Controllers/Api/CompetitorUploadController.php:141 | a label is reported missing exactly when it is required and not in the index |
| UploadHeader.MissingIff | app/Http/Controllers/Api/CompetitorUploadController.php:127-143 | a required label is reported missing exactly when no normalised header cell equals it |
| UploadHeader.RequiredExpected | app/Http/Controllers/Api/CompetitorUploadController.php:97-98 | every required label is among the looked-up labels |
| UploadHeader.NormalizeBom | app/Http/Controllers/Api/CompetitorUploadController.php:128-129 | a U+FEFF in front of a label does not change its normal form |
| UploadHeader.NormalizeCase | app/Http/Controllers/Api/CompetitorUploadController.php:129 | upper-casing a label does not change its normal form |
| UploadIntake.Catalogued | app/Http/Controllers/Api/CompetitorUploadController.php:202-235 | the lookups and the upsert change only the contestant of the row's CI and add the row's tutor, school, level and grade to their catalogs |
| UploadIntake.TrimEach | app/Http/Controllers/Api/CompetitorUploadController.php:244-246 | one trimmed piece per piece |
| UploadIntake.ErrorsOf | app/Http/Controllers/Api/CompetitorUploadController.php:182-188 | an independent reference for the error list: one entry per incomplete row, in order |
| UploadIntake.NameTokens | app/Http/Controllers/Api/CompetitorUploadController.php:193 | the tokens of a full name are non-empty, contain no whitespace and are made of its characters |
| UploadIntake.SplitNameFacts | app/Http/Controllers/Api/CompetitorUploadController.php:191-199 | with two or more tokens, the last token is the last name and the others joined by single spaces are the name; otherwise the name is the full name and the last name is empty |
| UploadIntake.InTruthy | app/Http/Controllers/Api/CompetitorUploadController.php:244 | array_filter keeps exactly the pieces that are neither '' nor '0' |
| UploadIntake.AreaNameFacts | app/Http/Controllers/Api/CompetitorUploadController.php:244-246 | the area names are exactly the trimmed pieces between the separators ',', ';' and the vertical bar that are neither '' nor '0'; each is non-empty, trimmed and free of separators |
| UploadIntake.TrimInside | app/Http/Controllers/Api/CompetitorUploadController.php:245 | every character of a trimmed value comes from the value |
| UploadIntake.AreaSeen | app/Http/Controllers/Api/CompetitorUploadController.php:249-258 | the areas seen are exactly the row's names, and each name is either seen once or counted as a skipped repeat |
| UploadIntake.AreaCatalog | app/Http/Controllers/Api/CompetitorUploadController.php:250-252 | the areas gained are exactly the row's names, and only areas and inscriptions change |
| UploadIntake.AreaCreated | app/Http/Controllers/Api/CompetitorUploadController.php:261-271 | created_inscriptions counts exactly the new triples, and no inscription is removed |
| UploadIntake.AreaInscribed | app/Http/Controllers/Api/CompetitorUploadController.php:250-272 | the inscriptions afterwards are those before plus exactly (CI, area, level) for each of the row's areas |
| UploadIntake.RowReported | app/Http/Controllers/Api/CompetitorUploadController.php:182-188 | a row missing a mandatory field is reported with its ordinal and changes nothing else; a complete row adds no error |
| UploadIntake.RowStored | app/Http/Controllers/Api/CompetitorUploadController.php:224-241 | a complete row leaves its CI with exactly the row's values, other contestants unchanged, and counts it as created exactly when the CI was new, otherwise as updated |
| UploadIntake.RowCounts | app/Http/Controllers/Api/CompetitorUploadController.php:167-272 | one row adds one to processed and one to created plus updated plus errors; contestants grow by the created count and inscriptions by the created inscriptions; nothing is removed |
| UploadIntake.RowInscriptions | app/Http/Controllers/Api/CompetitorUploadController.php:244-272 | a complete row inscribes its CI in each of its areas at its level, and adds no other triple |
| UploadIntake.RowsErrors | app/Http/Controllers/Api/CompetitorUploadController.php:167-188 | the loop's error list is the reference list of incomplete rows, and processed counts every row |
| UploadIntake.InErrorsOf | app/Http/Controllers/Api/CompetitorUploadController.php:182-188 | an error names row r exactly when r is a row ordinal and that row lacks a mandatory field |
| UploadIntake.RowsCounts | app/Http/Controllers/Api/CompetitorUploadController.php:167-273 | over the loop, processed equals created plus updated plus errors (added to the start); contestants and inscriptions grow by the created counts and are never removed |
| UploadIntake.RowsKeepCis | app/Http/Controllers/Api/CompetitorUploadController.php:224-235 | after the loop, the CI of every complete row is a contestant |
| UploadIntake.FileRefused | app/Http/Controllers/Api/CompetitorUploadController.php:113-153 | the empty-file outcome happens exactly for a file without records; a file lacking required labels changes nothing and reports exactly the missing labels, never an empty list |
| UploadIntake.FileProcessed | app/Http/Controllers/Api/CompetitorUploadController.php:156-295 | for a processed file: processed is the number of records after the header and equals created plus updated plus errors; the store gains exactly the created contestants and inscriptions; the errors are exactly the incomplete rows |
| UploadRun.UploadStore.constructor | app/Http/Controllers/Api/CompetitorUploadController.php:156-163 | the store object starts in the given state |
| UploadRun.UploadStore.NameOf | app/Http/Controllers/Api/CompetitorUploadController.php:191-199 | the name split computes `UploadIntake.SplitName` |
| UploadRun.UploadStore.Lookups | app/Http/Controllers/Api/CompetitorUploadController.php:201-221 | the tutor exists exactly when a phone or e-mail is given (a blank one stored as null); the school and grade exist when given; the catalogs gain exactly those rows and the level |
| UploadRun.UploadStore.Upsert | app/Http/Controllers/Api/CompetitorUploadController.php:201-235 | the lookups and updateOrCreate leave exactly the state `UploadIntake.Catalogued` describes |
| UploadRun.UploadStore.AddAreas | app/Http/Controllers/Api/CompetitorUploadController.php:249-272 | the area loop leaves the store, seen names and counters of `UploadIntake.AreaLoop` |
| UploadRun.UploadStore.StoreRow | app/Http/Controllers/Api/CompetitorUploadController.php:190-272 | a complete row's work matches `UploadIntake.Stored` |
| UploadRun.UploadStore.ProcessRow | app/Http/Controllers/Api/CompetitorUploadController.php:168-272 | one turn of the row loop matches `UploadIntake.RowStep` |
| UploadRun.UploadStore.ProcessRows | app/Http/Controllers/Api/CompetitorUploadController.php:156-273 | the while loop over the records leaves the store and statistics of `UploadIntake.Rows` from empty statistics |
| UploadRun.UploadStore.ProcessCsvFile | app/Http/Controllers/Api/CompetitorUploadController.php:113-295 | processCsvFile leaves the outcome and store of `UploadIntake.FileOf` |
| Password.Collect | app/Http/Controllers/Api/AuthController.php:168-178 | the first loop never pushes an empty word |
| Password.WordsAsWritten | app/Http/Controllers/Api/AuthController.php:168-181 | the words kept as written are never empty |
| Password.Initials | app/Http/Controllers/Api/AuthController.php:183-185 | one initial per word, the first byte of each, in order |
| Password.GeneratePassword | app/Http/Controllers/Api/AuthController.php:162-188 | the two loops compute `Password.PasswordAsWritten` |
| Password.CollectSplits | app/Http/Controllers/Api/AuthController.php:168-178 | the first loop agrees with splitting at every space: the current word is the last piece, and the words pushed are the non-empty earlier pieces |
| Password.WordsAsWrittenIntended | app/Http/Controllers/Api/AuthController.php:163-181 | the words are the maximal runs of non-space bytes, except that a last word "0" is lost |
| Password.PasswordAsWrittenIntended | app/Http/Controllers/Api/AuthController.php:163-187 | the password as written equals the intended one exactly when the trimmed name does not end in the word "0" |
| Password.LastZeroDropped | app/Http/Controllers/Api/AuthController.php:179-181 | for the name "A 0" and CI "123" the code returns "A123", while "A0123" is meant |
| Password.PasswordAsWrittenShape | app/Http/Controllers/Api/AuthController.php:183-187 | the password has one upper-cased initial per word, then the CI unchanged, so its length is the word count plus the CI's length |
| Password.WordsHaveNoSpace | app/Http/Controllers/Api/AuthController.php:163-181 | the words are non-empty and hold no space, so repeated or leading spaces give no empty word |
| Password.IntendedPasswordShape | app/Http/Controllers/Api/AuthController.php:183-187 | the intended password is one upper-cased initial per run of non-spaces, then the CI |
| Password.OnlySpaces | app/Http/Controllers/Api/AuthController.php:163-187 | a name made only of spaces gives exactly the CI |
| Olympiads.Tables.constructor | app/Models/Olympiad.php:43-82 | the tables start in the given state, with the given area catalog |
| Olympiads.Tables.CreatePhases | app/Models/Olympiad.php:68-78 | the inner loop adds exactly the phases 1 .. n and this olympiad-area's links to them, and attaches nothing |
| Olympiads.Tables.AssignAreas | app/Models/Olympiad.php:43-82 | assignAreas leaves the outcome and tables of `Olympiads.AssignOf` |
| Olympiads.InPairs | app/Models/Olympiad.php:59 | the attached rows are exactly the olympiad with each resolved id |
| Olympiads.InPhasesUpTo | app/Models/Olympiad.php:68-72 | the phases created are exactly 'Fase i' of order i for i in 1 .. n |
| Olympiads.InAreaLinks | app/Models/Olympiad.php:68-77 | the links of one olympiad-area are exactly those to the phases 1 .. n |
| Olympiads.InLinksFor | app/Models/Olympiad.php:62-79 | the links are exactly those from a resolved area to one of the phases 1 .. n |
| Olympiads.InResolve | app/Models/Olympiad.php:46-47 | the resolved ids are exactly those of existing areas whose name was requested; other names are ignored |
| Olympiads.RefusedIff | app/Models/Olympiad.php:50-56 | the call is refused with status 400 exactly when a resolved area is already attached, and then nothing changes |
| Olympiads.OnlyKnownAreas | app/Models/Olympiad.php:46-59 | every newly attached row is this olympiad with an existing area whose name was requested |
| Olympiads.AssignedComplete | app/Models/Olympiad.php:59-79 | after a successful call, every resolved area is attached and, for each i in 1 .. number_of_phases, 'Fase i' of order i exists and is linked to that olympiad-area |
| Olympiads.LinksExact | app/Models/Olympiad.php:62-79 | every new link joins a newly attached olympiad-area to one of the phases 1 .. number_of_phases |
| Olympiads.PhaseNamesDistinct | app/Models/Olympiad.php:69-70 | different indices give different phase names, so the find-or-create keys of the phases never collide |

## Left out

- HTTP plumbing is not modelled: Laravel request validation (MIME type, size, `exists:` rules), the JSON response shapes, the `Log` calls, `testUpload` and `downloadErrorCsv`.
- Timing figures are not modelled: `microtime`, the rates, records per second and processing time are floating-point and clock values.
- File I/O is not modelled. `file_get_contents` and `fopen` are replaced by the content as a parameter. The upsert model takes the records `fgetcsv` yields as a parameter, with a blank line as `[""]`. The `fopen` failure branch (CompetitorUploadController.php:101-111) is I/O. The strict report is returned as a name and content pair instead of being written with `Storage::disk`.
- Transactions and the `catch` branches are left out: `DB::beginTransaction/commit/rollBack`, the strict `catch (\Exception)` and the upsert `catch (\Throwable)`. The modelled store never throws, so no rollback happens.
- The failure of the whole request on a column-count mismatch (the `ValueError` of `array_combine`, which the transaction never commits) is not part of the intake pipeline: `ProcessFile`, `UploadOf` and the `StrictUpload` methods use the corrected loop. The as-written behaviour is modelled only by `StrictIntake.RowStepAsWritten`, `StrictIntake.ScanAsWritten` and `StrictIntake.MismatchAborts`, as an `Option` result.
- `str_getcsv` and `fgetcsv` quote handling is not modelled: a line is split on the delimiter after dropping one final line terminator. Two consequences: a copy of an error report, whose fields `generateErrorCsv` writes in double quotes, keeps those quotes in its header cells, so the model refuses it where PHP accepts it; and the trailing CR or LF that `str_getcsv` drops from each unenclosed field stays in the model's cell.
- FILTER_VALIDATE_EMAIL is the parameter `validEmail`, because e-mail syntax is a library routine.
- The Unicode regex classes are modelled as byte classes, as PHP reads them without `/u`. `mb_strtolower` is modelled as ASCII lower-casing; none of the expected labels can come from a non-ASCII letter under full case folding.
- Database constraints, collations and surrogate ids are not modelled. Rows are identified by natural keys. Unique indexes and case-insensitive collations are not modelled.
- StrictStore.Database.CreateContestantAndRegistration: requires that the CI is not stored yet. The insert would violate the unique CI column otherwise; validation guarantees it on every path the controller takes (`StrictIntake.ValidationSound`).
- UploadRun.UploadStore.AddAreas: omits the `$areaName === ''` guard at CompetitorUploadController.php:251. It can never fire, because `UploadIntake.AreaNameFacts` proves every area name is non-empty.
- The tutors' `first_name`/`last_name` (always null in the upsert intake) and the `is_group` column of inscriptions are not modelled.
- UploadIntake.SplitNameFacts: the join of the name tokens by single spaces is stated only for a full name without a NUL byte. `trim()` strips NUL but `\s` does not match it, so such a name is handled but not characterised.
- Olympiads.Tables.AssignAreas: the final `load('areas', 'phases')` is a framework reload, and it is not modelled.

## Findings

| source | as written | input that shows it | evidently intended | confidence | as-written member | corrected member |
|---|---|---|---|---|---|---|
| app/Http/Controllers/CompetitorRegistrationController.php:229-236 | after recording a column-count mismatch, the loop continues into `array_combine($header, $row)`; under PHP 8 this throws a ValueError, which `catch (\Exception)` does not catch, so the whole upload fails | the data line `x` under the 14-label header | record the mismatch for that row and go on with the next line | not executed | StrictIntake.MismatchAborts | StrictIntake.RowStep |
| app/Http/Controllers/Api/AuthController.php:179-181 | `if (!$name == "")` is read as `(!$name) == ""`, so a last word "0" is never pushed | name `A 0`, CI `123` gives `A123` | every word's initial, giving `A0123` | not executed | Password.LastZeroDropped | Password.IntendedPassword |
