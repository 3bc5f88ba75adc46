/**
 * The strict intake as the controller runs it: a row loop that writes to the
 * database as it goes, processCsvFile around it, and uploadCsv adding up the
 * counters file by file. Each method is proved to compute exactly what the
 * functions of StrictIntake describe, so their properties carry over.
 */
module StrictUpload {
  import opened Php
  import opened StrictStore
  import opened StrictRules
  import opened StrictReport
  import opened StrictIntake

  /** A data line whose cell count matches the header: the duplicate check, the
      validation and, when the record passes, the insert. */
  method JudgeRow(db: Database, errors: seq<ErrorEntry>, successful: nat, seen: set<string>,
                  data: Record, i: nat, olympiad: int, validEmail: string -> bool)
    returns (errors': seq<ErrorEntry>, successful': nat, seen': set<string>)
    modifies db
    ensures Progress(db.State(), errors', successful', seen') ==
      Judge(Progress(old(db.State()), errors, successful, seen), data, i, olympiad, Validation(olympiad, validEmail))
  {
    errors', successful', seen' := errors, successful, seen;
    var ci := Get(data, "CI");
    if !IsEmpty(ci) && ci in seen {
      errors' := errors + [ErrorEntry(i + 1, data, DuplicateMessage)];
      return;
    }
    var failures := Failures(data, db.State(), olympiad, validEmail);
    if failures == [] {
      ValidRowRegistersAll(data, db.State(), olympiad, validEmail, GradeOf(data), LevelOf(data));
      db.CreateContestantAndRegistration(data, olympiad);
      successful' := successful + 1;
      if !IsEmpty(ci) {
        seen' := seen + {ci};
      }
    } else {
      errors' := errors + [ErrorEntry(i + 1, data, JoinWith(Messages(failures), "; "))];
    }
  }

  /** One iteration of the row loop over line i. */
  method HandleLine(db: Database, errors: seq<ErrorEntry>, successful: nat, seen: set<string>,
                    header: seq<string>, column: Option<nat>, line: string, i: nat,
                    olympiad: int, validEmail: string -> bool)
    returns (errors': seq<ErrorEntry>, successful': nat, seen': set<string>)
    modifies db
    ensures Progress(db.State(), errors', successful', seen') ==
      RowStep(Progress(old(db.State()), errors, successful, seen), header, column, line, i,
              olympiad, Validation(olympiad, validEmail))
  {
    errors', successful', seen' := errors, successful, seen;
    if Blank(line) {
      return;
    }
    var row := Cells(line, column);
    if |row| != |header| {
      errors' := errors + [ErrorEntry(i + 1, map[], MismatchMessage(|row|, |header|))];
    } else {
      errors', successful', seen' :=
        JudgeRow(db, errors, successful, seen, RowData(header, row), i, olympiad, validEmail);
    }
  }

  /** The row loop of processCsvFile over lines 1 .. |lines| - 1. */
  method ProcessRows(db: Database, lines: seq<string>, header: seq<string>, column: Option<nat>,
                     olympiad: int, validEmail: string -> bool)
    returns (errors: seq<ErrorEntry>, successful: nat, seen: set<string>)
    requires |lines| >= 1
    modifies db
    ensures Progress(db.State(), errors, successful, seen) ==
      Scan(lines, header, column, olympiad, Validation(olympiad, validEmail),
           Progress(old(db.State()), [], 0, {}), |lines|)
  {
    errors, successful, seen := [], 0, {};
    ghost var start := Progress(db.State(), [], 0, {});
    ghost var check := Validation(olympiad, validEmail);
    ghost var p := start;
    var i := 1;
    while i < |lines|
      invariant 1 <= i <= |lines|
      invariant p == Scan(lines, header, column, olympiad, check, start, i)
      invariant db.State() == p.db && errors == p.errors && successful == p.successful && seen == p.seen
    {
      p := RowStep(p, header, column, lines[i], i, olympiad, check);
      errors, successful, seen :=
        HandleLine(db, errors, successful, seen, header, column, lines[i], i, olympiad, validEmail);
      i := i + 1;
    }
  }

  /** The part of processCsvFile after an accepted header: the row loop and the report. */
  method ProcessAccepted(db: Database, filename: string, lines: seq<string>, header: seq<string>,
                         column: Option<nat>, olympiad: int, validEmail: string -> bool)
    returns (result: FileResult)
    requires |lines| >= 1
    modifies db
    ensures (result, db.State()) == AcceptedFile(filename, lines, header, column, old(db.State()), olympiad, validEmail)
  {
    AcceptedFileIs(filename, lines, header, column, db.State(), olympiad, validEmail);
    var errors, successful, seen := ProcessRows(db, lines, header, column, olympiad, validEmail);
    var errorFile := None;
    if |errors| > 0 {
      var report := GenerateErrorCsv(filename, header, errors, None);
      errorFile := Some(report);
    }
    result := FileResult(filename, successful, |errors|, 0, |lines| - 1, errorFile);
  }

  /** The header without its first 'Errores' column, as processCsvFile validates it. */
  method HeaderWithoutErrors(header: seq<string>) returns (column: Option<nat>, toValidate: seq<string>)
    ensures column == IndexOf(header, "Errores") && toValidate == HeaderToValidate(header)
  {
    column := IndexOf(header, "Errores");
    toValidate := header;
    if column.Some? {
      toValidate := RemoveAt(header, column.value);
    }
  }

  /** A file whose header is refused: nothing is stored and the report carries one
      header error and all the original lines. */
  method RejectFile(filename: string, lines: seq<string>, header: seq<string>) returns (result: FileResult)
    requires |lines| >= 1
    ensures result == RejectedFile(filename, lines, header)
  {
    var report := GenerateErrorCsv(filename, header, [ErrorEntry(1, map[], HeaderMessage)], Some(lines));
    result := FileResult(filename, 0, 0, 1, |lines| - 1, Some(report));
  }

  /** processCsvFile: the same result and the same store as ProcessFile. */
  method ProcessCsvFile(db: Database, filename: string, content: string, olympiad: int,
                        validEmail: string -> bool)
    returns (result: FileResult)
    modifies db
    ensures (result, db.State()) == ProcessFile(filename, content, old(db.State()), olympiad, validEmail)
  {
    var lines := FileLines(content);
    var header := GetCsv(lines[0], ',');
    var column, toValidate := HeaderWithoutErrors(header);
    if toValidate != ExpectedHeader {
      ProcessFileRejected(filename, content, db.State(), olympiad, validEmail);
      result := RejectFile(filename, lines, header);
    } else {
      ProcessFileAccepted(filename, content, db.State(), olympiad, validEmail);
      result := ProcessAccepted(db, filename, lines, toValidate, column, olympiad, validEmail);
    }
  }

  /** The counter updates of uploadCsv for one file result. */
  method CountFile(totals: Totals, result: FileResult) returns (totals': Totals)
    ensures totals' == AddResult(totals, result)
  {
    totals' := totals.(successful := totals.successful + result.successful,
                       competitorErrors := totals.competitorErrors + result.competitorErrors,
                       headerErrors := totals.headerErrors + result.headerErrors,
                       records := totals.records + result.totalRecords);
    if result.headerErrors > 0 {
      totals' := totals'.(filesWithHeaderErrors := totals'.filesWithHeaderErrors + 1);
    }
    if result.competitorErrors > 0 {
      totals' := totals'.(filesWithCompetitorErrors := totals'.filesWithCompetitorErrors + 1);
    }
    if result.headerErrors > 0 || result.competitorErrors > 0 {
      totals' := totals'.(filesWithErrors := totals'.filesWithErrors + 1);
      if result.errorFile.Some? {
        totals' := totals'.(errorFiles := totals'.errorFiles + [result.errorFile.value.name]);
      }
    }
  }

  /** The foreach of uploadCsv: every file in order on the one store, each result kept
      and added to the counters. */
  method ProcessFiles(db: Database, present: seq<CsvFile>, olympiad: int, validEmail: string -> bool)
    returns (results: seq<FileResult>, totals: Totals)
    modifies db
    ensures results == ProcessAll(present, old(db.State()), olympiad, validEmail).0
    ensures db.State() == ProcessAll(present, old(db.State()), olympiad, validEmail).1
    ensures totals == Tally(results)
  {
    results, totals := [], NoTotals;
    ghost var start := db.State();
    var k := 0;
    while k < |present|
      invariant 0 <= k <= |present|
      invariant results == ProcessAll(present[..k], start, olympiad, validEmail).0
      invariant db.State() == ProcessAll(present[..k], start, olympiad, validEmail).1
      invariant totals == Tally(results)
    {
      ProcessAllStep(present, k, start, olympiad, validEmail);
      var result := ProcessCsvFile(db, present[k].name, present[k].content, olympiad, validEmail);
      TallySnoc(results, result);
      results := results + [result];
      totals := CountFile(totals, result);
      k := k + 1;
    }
    assert present[..|present|] == present;
  }

  /** uploadCsv after its request validation: refused without files, otherwise the
      response and the store of UploadOf. */
  method UploadCsv(db: Database, files: seq<Option<CsvFile>>, olympiad: int, validEmail: string -> bool)
    returns (response: Upload)
    modifies db
    ensures (response, db.State()) == UploadOf(files, old(db.State()), olympiad, validEmail)
  {
    var present := Present(files);
    if present == [] {
      return Rejected("No valid files provided");
    }
    var results, totals := ProcessFiles(db, present, olympiad, validEmail);
    response := Processed(|present|, totals, results);
  }
}
