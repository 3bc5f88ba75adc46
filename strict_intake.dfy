/**
 * processCsvFile and uploadCsv of the strict intake: a file is split into
 * lines, its header is checked against the 14 expected labels, and every
 * non-blank data line is validated and either stored or recorded as an error.
 */
module StrictIntake {
  import opened Php
  import opened StrictStore
  import opened StrictRules
  import opened StrictReport

  /** The UTF-8 byte order mark, as three bytes. */
  const Bom: string := "\U{EF}\U{BB}\U{BF}"

  /** A leading mark is removed, and only a leading mark. */
  function StripBom(line: string): (r: string)
    ensures |line| >= 3 && line[..3] == Bom ==> line == Bom + r
    ensures !(|line| >= 3 && line[..3] == Bom) ==> r == line
  {
    if |line| >= 3 && line[..3] == Bom then line[3..] else line
  }

  /** The lines of a file: newline-separated, without the mark at the start of the first. */
  function FileLines(content: string): (lines: seq<string>)
    ensures |lines| >= 1
  {
    var ls := GetCsv(content, '\n');
    ls[0 := StripBom(ls[0])]
  }

  /** The header with its first 'Errores' column taken out. */
  function HeaderToValidate(header: seq<string>): seq<string> {
    DropColumn(header, IndexOf(header, "Errores"))
  }

  /** Exact, case- and order-sensitive comparison with the expected labels. */
  predicate HeaderAccepted(header: seq<string>) {
    HeaderToValidate(header) == ExpectedHeader
  }

  /** `e` with `x` inserted at position k. */
  function Inserted(e: seq<string>, x: string, k: nat): seq<string>
    requires k <= |e|
  {
    e[..k] + [x] + e[k..]
  }

  /** Taking the first `x` out of `h` leaves `e` (which has no `x`) exactly when
      `h` is `e` itself or `e` with one `x` inserted. */
  lemma DropFirstIff(h: seq<string>, x: string, e: seq<string>)
    requires x !in e
    ensures DropColumn(h, IndexOf(h, x)) == e <==>
      h == e || exists k :: 0 <= k <= |e| && h == Inserted(e, x, k)
  {
    if DropColumn(h, IndexOf(h, x)) == e && IndexOf(h, x).Some? {
      DropFirstShape(h, x, e, IndexOf(h, x).value);
    }
    if h != e && exists k :: 0 <= k <= |e| && h == Inserted(e, x, k) {
      var k :| 0 <= k <= |e| && h == Inserted(e, x, k);
      InsertedDrops(e, x, k);
    }
  }

  lemma DropFirstShape(h: seq<string>, x: string, e: seq<string>, k: nat)
    requires k < |h| && RemoveAt(h, k) == e && h[k] == x
    ensures k <= |e| && h == Inserted(e, x, k)
  {
    assert h[..k] == e[..k];
    assert h[k + 1..] == e[k..];
    assert h == h[..k] + [h[k]] + h[k + 1..];
  }

  lemma InsertedDrops(e: seq<string>, x: string, k: nat)
    requires x !in e && k <= |e|
    ensures var h := Inserted(e, x, k); IndexOf(h, x) == Some(k) && RemoveAt(h, k) == e
  {
    var h := Inserted(e, x, k);
    assert h[..k] == e[..k];
    assert x !in h[..k];
    assert h[k] == x;
    assert RemoveAt(h, k) == e[..k] + e[k..];
    assert e[..k] + e[k..] == e;
  }

  /** A header is accepted exactly when it is the expected one, possibly with one
      'Errores' column inserted anywhere (a report file sent back). */
  lemma HeaderAcceptedIff(header: seq<string>)
    ensures HeaderAccepted(header) <==>
      header == ExpectedHeader || exists k :: 0 <= k <= |ExpectedHeader| && header == Inserted(ExpectedHeader, "Errores", k)
  {
    assert "Errores" !in ExpectedHeader;
    DropFirstIff(header, "Errores", ExpectedHeader);
  }

  /** array_combine(): label to cell, a later label winning. */
  function Combine(keys: seq<string>, row: seq<string>): (m: Record)
    requires |keys| == |row|
    ensures forall j :: 0 <= j < |keys| ==> keys[j] in m
  {
    if keys == [] then map[]
    else
      var n := |keys| - 1;
      var m := Combine(keys[..n], row[..n]);
      assert forall j :: 0 <= j < n ==> keys[..n][j] == keys[j];
      m[keys[n] := row[n]]
  }

  /** With distinct labels every cell lands under its own label. */
  lemma {:induction false} CombineAt(keys: seq<string>, row: seq<string>, j: nat)
    requires |keys| == |row| && j < |keys|
    requires forall a, b :: 0 <= a < b < |keys| ==> keys[a] != keys[b]
    ensures Combine(keys, row)[keys[j]] == row[j]
  {
    var n := |keys| - 1;
    if j < n {
      assert forall a, b :: 0 <= a < b < n ==> keys[..n][a] == keys[a] && keys[..n][b] == keys[b];
      CombineAt(keys[..n], row[..n], j);
      assert keys[..n][j] == keys[j] && row[..n][j] == row[j];
    }
  }

  /** The labels with trim() applied, as the record keys are normalised. */
  function TrimAll(header: seq<string>): (r: seq<string>)
    ensures |r| == |header|
  {
    seq(|header|, j requires 0 <= j < |header| => Trim(header[j]))
  }

  /** The record a data line is validated as: the cells under their trimmed labels, without 'N.'. */
  function RowData(header: seq<string>, row: seq<string>): Record
    requires |header| == |row|
  {
    Combine(TrimAll(header), row) - {"N."}
  }

  function MismatchMessage(cells: nat, columns: nat): string {
    "Row has " + NatToString(cells) + " columns but header has " + NatToString(columns) +
    " columns. Please check for missing commas or extra commas in the data."
  }

  const DuplicateMessage: string := "CI Document duplicated within the same file"

  const HeaderMessage: string :=
    "Las cabeceras del CSV no coinciden con el formato requerido. Revise la primera fila de datos para ver las cabeceras correctas."

  /** What the row loop has built so far: the store, the errors, the stored count and
      the CIs stored from this file. */
  datatype Progress = Progress(db: Db, errors: seq<ErrorEntry>, successful: nat, seen: set<string>)

  /** The cells of data line `line`, without the cell under the 'Errores' column. */
  function Cells(line: string, column: Option<nat>): seq<string> {
    DropColumn(GetCsv(line, ','), column)
  }

  /** validateContestantData for an olympiad: the failures of a record against a store. */
  type Validator = (Record, Db) -> seq<Failure>

  function Validation(olympiad: int, validEmail: string -> bool): Validator {
    (data: Record, db: Db) => Failures(data, db, olympiad, validEmail)
  }

  /** What storing relies on: a record that passes names a CI that is filled in and not yet stored. */
  ghost predicate Sound(check: Validator) {
    forall data: Record, db: Db :: check(data, db) == [] ==>
      !IsEmpty(Get(data, "CI")) && Get(data, "CI") !in db.contestants
  }

  lemma ValidationSound(olympiad: int, validEmail: string -> bool)
    ensures Sound(Validation(olympiad, validEmail))
  {
    forall data: Record, db: Db | Validation(olympiad, validEmail)(data, db) == []
      ensures !IsEmpty(Get(data, "CI")) && Get(data, "CI") !in db.contestants
    {
      ValidRowRegistersAll(data, db, olympiad, validEmail, GradeOf(data), LevelOf(data));
    }
  }

  /** Recording an error: only the error list changes, by one entry at the end. */
  function Failed(p: Progress, e: ErrorEntry): Progress {
    p.(errors := p.errors + [e])
  }

  /** A data line with the right number of cells: a CI already stored from this file is
      a duplicate; otherwise the record is stored when it passes and reported when not. */
  function Judge(p: Progress, data: Record, i: nat, olympiad: int, check: Validator): Progress {
    var ci := Get(data, "CI");
    if !IsEmpty(ci) && ci in p.seen then Failed(p, ErrorEntry(i + 1, data, DuplicateMessage))
    else
      var failures := check(data, p.db);
      if failures == [] then
        Progress(Created(p.db, data, olympiad), p.errors, p.successful + 1,
                 if IsEmpty(ci) then p.seen else p.seen + {ci})
      else Failed(p, ErrorEntry(i + 1, data, JoinWith(Messages(failures), "; ")))
  }

  /** One data line (index i of the file; row number i + 1): blank lines are skipped; a
      line whose cell count does not match the header is reported and skipped. */
  function RowStep(p: Progress, header: seq<string>, column: Option<nat>, line: string, i: nat,
                   olympiad: int, check: Validator): Progress
  {
    if Blank(line) then p
    else
      var row := Cells(line, column);
      if |row| != |header| then Failed(p, ErrorEntry(i + 1, map[], MismatchMessage(|row|, |header|)))
      else Judge(p, RowData(header, row), i, olympiad, check)
  }

  /** The row loop over lines[1..n]. */
  function Scan(lines: seq<string>, header: seq<string>, column: Option<nat>, olympiad: int,
                check: Validator, start: Progress, n: nat): Progress
    requires 1 <= n <= |lines|
  {
    if n == 1 then start
    else RowStep(Scan(lines, header, column, olympiad, check, start, n - 1),
                 header, column, lines[n - 1], n - 1, olympiad, check)
  }

  /** Judging a line accounts for exactly one row: it is stored or it gets one error
      entry, with the line's row number, after the earlier entries. */
  lemma JudgeAccounts(p: Progress, data: Record, i: nat, olympiad: int, check: Validator)
    ensures var q := Judge(p, data, i, olympiad, check);
      q.successful + |q.errors| == p.successful + |p.errors| + 1 &&
      |q.errors| >= |p.errors| && q.errors[..|p.errors|] == p.errors &&
      forall k :: |p.errors| <= k < |q.errors| ==> q.errors[k].rowNumber == i + 1
  {
  }

  /** A CI already stored from this file gets the duplicate message and nothing else:
      the record is not validated, and the store, the stored count and the CIs seen stay. */
  lemma DuplicateSkipped(p: Progress, data: Record, i: nat, olympiad: int, check: Validator, check': Validator)
    requires !IsEmpty(Get(data, "CI")) && Get(data, "CI") in p.seen
    ensures Judge(p, data, i, olympiad, check) == p.(errors := p.errors + [ErrorEntry(i + 1, data, DuplicateMessage)])
    ensures Judge(p, data, i, olympiad, check') == Judge(p, data, i, olympiad, check)
  {
  }

  /** A line that is not stored changes only the error list: the store, the stored count
      and the CIs seen stay, and the entry added is the duplicate message or the joined
      validation messages. A stored line adds no error. */
  lemma JudgeKeeps(p: Progress, data: Record, i: nat, olympiad: int, check: Validator)
    ensures var q := Judge(p, data, i, olympiad, check);
      (q.successful == p.successful ==>
         q.db == p.db && q.seen == p.seen && |q.errors| == |p.errors| + 1 &&
         q.errors[|p.errors|].rowNumber == i + 1 && q.errors[|p.errors|].fields == data &&
         (q.errors[|p.errors|].message == DuplicateMessage ||
          q.errors[|p.errors|].message == JoinWith(Messages(check(data, p.db)), "; "))) &&
      (q.successful != p.successful ==>
         q.successful == p.successful + 1 && q.errors == p.errors && q.db == Created(p.db, data, olympiad))
  {
  }

  /** A blank line accounts for no row, any other line for exactly one. */
  lemma StepAccounts(p: Progress, header: seq<string>, column: Option<nat>, line: string, i: nat,
                     olympiad: int, check: Validator)
    ensures var q := RowStep(p, header, column, line, i, olympiad, check);
      q.successful + |q.errors| == p.successful + |p.errors| + (if Blank(line) then 0 else 1) &&
      |q.errors| >= |p.errors| && q.errors[..|p.errors|] == p.errors &&
      forall k :: |p.errors| <= k < |q.errors| ==> q.errors[k].rowNumber == i + 1
  {
    if !Blank(line) && |Cells(line, column)| == |header| {
      JudgeAccounts(p, RowData(header, Cells(line, column)), i, olympiad, check);
    }
  }

  // ----- the row step as written -----

  /** A non-blank data line whose cell count differs from the header's. */
  predicate Mismatched(line: string, header: seq<string>, column: Option<nat>) {
    !Blank(line) && |Cells(line, column)| != |header|
  }

  /** One data line as the loop is written: after the mismatch error is recorded the
      loop goes on to array_combine(), which on PHP 8 throws a ValueError for keys and
      values of different lengths; catch (\Exception) does not catch it, so the upload
      fails (None). */
  function RowStepAsWritten(p: Progress, header: seq<string>, column: Option<nat>, line: string, i: nat,
                            olympiad: int, check: Validator): Option<Progress>
  {
    if Blank(line) then Some(p)
    else
      var row := Cells(line, column);
      if |row| != |header| then None
      else Some(Judge(p, RowData(header, row), i, olympiad, check))
  }

  /** The row loop as written, failing at the first mismatched line. */
  function ScanAsWritten(lines: seq<string>, header: seq<string>, column: Option<nat>, olympiad: int,
                         check: Validator, start: Progress, n: nat): Option<Progress>
    requires 1 <= n <= |lines|
  {
    if n == 1 then Some(start)
    else
      match ScanAsWritten(lines, header, column, olympiad, check, start, n - 1)
      case None => None
      case Some(p) => RowStepAsWritten(p, header, column, lines[n - 1], n - 1, olympiad, check)
  }

  /** The written step and the corrected one agree except on a mismatched line, where
      the written one fails and the corrected one records the mismatch and goes on. */
  lemma RowStepAsWrittenIff(p: Progress, header: seq<string>, column: Option<nat>, line: string, i: nat,
                            olympiad: int, check: Validator)
    ensures RowStepAsWritten(p, header, column, line, i, olympiad, check).None? <==> Mismatched(line, header, column)
    ensures !Mismatched(line, header, column) ==>
      RowStepAsWritten(p, header, column, line, i, olympiad, check) == Some(RowStep(p, header, column, line, i, olympiad, check))
  {
  }

  /** The written loop fails exactly when some data line is mismatched, and otherwise
      ends where the corrected loop does. */
  lemma {:induction false} ScanAsWrittenIff(lines: seq<string>, header: seq<string>, column: Option<nat>,
                                            olympiad: int, check: Validator, start: Progress, n: nat)
    requires 1 <= n <= |lines|
    ensures ScanAsWritten(lines, header, column, olympiad, check, start, n).None? <==>
      exists k :: 1 <= k < n && Mismatched(lines[k], header, column)
    ensures ScanAsWritten(lines, header, column, olympiad, check, start, n).Some? ==>
      ScanAsWritten(lines, header, column, olympiad, check, start, n) == Some(Scan(lines, header, column, olympiad, check, start, n))
  {
    if n > 1 {
      ScanAsWrittenIff(lines, header, column, olympiad, check, start, n - 1);
      var w := ScanAsWritten(lines, header, column, olympiad, check, start, n - 1);
      if w.Some? {
        RowStepAsWrittenIff(w.value, header, column, lines[n - 1], n - 1, olympiad, check);
      } else {
        var k :| 1 <= k < n - 1 && Mismatched(lines[k], header, column);
        assert 1 <= k < n && Mismatched(lines[k], header, column);
      }
    }
  }

  /** The line "x" under the expected header: one cell against fourteen labels. The
      written step fails, while the corrected one records the mismatch for row i + 1. */
  lemma MismatchAborts(p: Progress, i: nat, olympiad: int, check: Validator)
    ensures RowStepAsWritten(p, ExpectedHeader, None, "x", i, olympiad, check) == None
    ensures RowStep(p, ExpectedHeader, None, "x", i, olympiad, check) ==
      Failed(p, ErrorEntry(i + 1, map[], MismatchMessage(1, 14)))
  {
    OneCell();
  }

  lemma OneCell()
    ensures !Blank("x") && Cells("x", None) == ["x"] && |ExpectedHeader| == 14
  {
    TrimIdle("x");
    assert DropLineEnd("x") == "x";
    SplitNoSep("x", {','});
  }

  /** The per-file result. */
  datatype FileResult = FileResult(
    filename: string, successful: nat, competitorErrors: nat, headerErrors: nat,
    totalRecords: nat, errorFile: Option<Report>)

  // ---------------------------------------------------------------------
  // Properties of the row loop

  /** Every non-blank line ends up either stored or recorded as an error, and
      errors are only appended, each with the row number of a data line. */
  lemma {:induction false} ScanAccounts(lines: seq<string>, header: seq<string>, column: Option<nat>,
                                        olympiad: int, check: Validator, start: Progress, n: nat)
    requires 1 <= n <= |lines|
    ensures var p := Scan(lines, header, column, olympiad, check, start, n);
      p.successful + |p.errors| == start.successful + |start.errors| + NonBlankCount(lines, n) &&
      |p.errors| >= |start.errors| && p.errors[..|start.errors|] == start.errors &&
      forall k :: |start.errors| <= k < |p.errors| ==> 2 <= p.errors[k].rowNumber <= n
  {
    if n > 1 {
      ScanAccounts(lines, header, column, olympiad, check, start, n - 1);
      var q := Scan(lines, header, column, olympiad, check, start, n - 1);
      var p := RowStep(q, header, column, lines[n - 1], n - 1, olympiad, check);
      assert Scan(lines, header, column, olympiad, check, start, n) == p;
      StepAccounts(q, header, column, lines[n - 1], n - 1, olympiad, check);
      assert p.errors[..|start.errors|] == p.errors[..|q.errors|][..|start.errors|];
      forall k | |start.errors| <= k < |p.errors|
        ensures 2 <= p.errors[k].rowNumber <= n
      {
        if k < |q.errors| {
          assert p.errors[k] == p.errors[..|q.errors|][k] == q.errors[k];
        }
      }
    }
  }

  /** How the row loop relates the store to the store it started from: the CIs stored
      from this file are new, one per stored row; nothing stored before changes; the
      catalogs stay. */
  predicate Tracks(db: Db, p: Progress) {
    p.db.contestants.Keys == db.contestants.Keys + p.seen &&
    db.contestants.Keys !! p.seen &&
    |p.seen| == p.successful &&
    (forall c :: c in db.contestants ==> p.db.contestants[c] == db.contestants[c]) &&
    p.db.areas == db.areas && p.db.offered == db.offered
  }

  /** Adding one new CI keeps the relation. */
  lemma TracksAdd(db: Db, p: Progress, q: Progress, ci: string)
    requires Tracks(db, p)
    requires ci !in p.db.contestants
    requires q.db.contestants.Keys == p.db.contestants.Keys + {ci}
    requires forall c :: c in p.db.contestants ==> q.db.contestants[c] == p.db.contestants[c]
    requires q.seen == p.seen + {ci} && q.successful == p.successful + 1
    requires q.db.areas == p.db.areas && q.db.offered == p.db.offered
    ensures Tracks(db, q)
  {
    KeysGrow(db.contestants.Keys, p.db.contestants.Keys, q.db.contestants.Keys, p.seen, ci);
  }

  lemma KeysGrow(start: set<string>, keys: set<string>, keys': set<string>, seen: set<string>, ci: string)
    requires keys == start + seen && start !! seen && ci !in keys && keys' == keys + {ci}
    ensures keys' == start + (seen + {ci}) && start !! (seen + {ci}) && |seen + {ci}| == |seen| + 1
  {
  }

  /** Storing a valid row keeps the relation, its CI being new. */
  lemma StoredTracks(db: Db, p: Progress, data: Record, olympiad: int)
    requires Tracks(db, p)
    requires !IsEmpty(Get(data, "CI")) && Get(data, "CI") !in p.db.contestants
    ensures Tracks(db, Progress(Created(p.db, data, olympiad), p.errors, p.successful + 1, p.seen + {Get(data, "CI")}))
  {
    CreatedShape(p.db, data, olympiad);
    TracksAdd(db, p, Progress(Created(p.db, data, olympiad), p.errors, p.successful + 1, p.seen + {Get(data, "CI")}),
              Get(data, "CI"));
  }

  lemma JudgeTracks(db: Db, p: Progress, data: Record, i: nat, olympiad: int, check: Validator)
    requires Tracks(db, p)
    requires Sound(check)
    ensures Tracks(db, Judge(p, data, i, olympiad, check))
  {
    var ci := Get(data, "CI");
    if !(!IsEmpty(ci) && ci in p.seen) && check(data, p.db) == [] {
      StoredTracks(db, p, data, olympiad);
    }
  }

  lemma StepTracks(db: Db, p: Progress, header: seq<string>, column: Option<nat>, line: string, i: nat,
                   olympiad: int, check: Validator)
    requires Tracks(db, p)
    requires Sound(check)
    ensures Tracks(db, RowStep(p, header, column, line, i, olympiad, check))
  {
    if !Blank(line) && |Cells(line, column)| == |header| {
      JudgeTracks(db, p, RowData(header, Cells(line, column)), i, olympiad, check);
    }
  }

  lemma {:induction false} ScanTracks(lines: seq<string>, header: seq<string>, column: Option<nat>,
                                      olympiad: int, check: Validator, db: Db, start: Progress, n: nat)
    requires 1 <= n <= |lines|
    requires Tracks(db, start)
    requires Sound(check)
    ensures Tracks(db, Scan(lines, header, column, olympiad, check, start, n))
  {
    if n > 1 {
      ScanTracks(lines, header, column, olympiad, check, db, start, n - 1);
      StepTracks(db, Scan(lines, header, column, olympiad, check, start, n - 1),
                 header, column, lines[n - 1], n - 1, olympiad, check);
    }
  }

  /** The store after some files against the store before: everything stored stays as
      it was, `added` contestants are new, and the catalogs are untouched. */
  predicate Grows(db: Db, db': Db, added: nat) {
    db.contestants.Keys <= db'.contestants.Keys &&
    |db'.contestants| == |db.contestants| + added &&
    (forall c :: c in db.contestants ==> db'.contestants[c] == db.contestants[c]) &&
    db'.areas == db.areas && db'.offered == db.offered
  }

  lemma GrowsTrans(a: Db, b: Db, c: Db, m: nat, n: nat)
    requires Grows(a, b, m) && Grows(b, c, n)
    ensures Grows(a, c, m + n)
  {
  }

  lemma TracksGrows(db: Db, p: Progress)
    requires Tracks(db, p)
    ensures Grows(db, p.db, p.successful)
  {
    assert |p.db.contestants.Keys| == |db.contestants.Keys| + |p.seen|;
  }

  /** The row loop of a file whose header was accepted, and its report. */
  function AcceptedFile(filename: string, lines: seq<string>, header: seq<string>, column: Option<nat>,
                        db: Db, olympiad: int, validEmail: string -> bool): (FileResult, Db)
    requires |lines| >= 1
  {
    var p := Scan(lines, header, column, olympiad, Validation(olympiad, validEmail), Progress(db, [], 0, {}), |lines|);
    (FileResult(filename, p.successful, |p.errors|, 0, |lines| - 1,
                if |p.errors| > 0 then Some(ErrorReport(filename, header, p.errors, None)) else None), p.db)
  }

  /** The row loop from an empty progress: every non-blank data line is stored or
      reported, and the store only grows, by one new contestant per stored line. */
  lemma ScanFacts(lines: seq<string>, header: seq<string>, column: Option<nat>,
                  db: Db, olympiad: int, validEmail: string -> bool)
    requires |lines| >= 1
    ensures var p := Scan(lines, header, column, olympiad, Validation(olympiad, validEmail), Progress(db, [], 0, {}), |lines|);
      p.successful + |p.errors| == NonBlankCount(lines, |lines|) && Grows(db, p.db, p.successful)
  {
    var check := Validation(olympiad, validEmail);
    var start := Progress(db, [], 0, {});
    ValidationSound(olympiad, validEmail);
    ScanAccounts(lines, header, column, olympiad, check, start, |lines|);
    ScanTracks(lines, header, column, olympiad, check, db, start, |lines|);
    TracksGrows(db, Scan(lines, header, column, olympiad, check, start, |lines|));
  }

  /** For an accepted header every non-blank data line is stored or reported, a report
      exists exactly when a line was reported, and the store only grows, by one new
      contestant per stored line. */
  lemma AcceptedFileFacts(filename: string, lines: seq<string>, header: seq<string>, column: Option<nat>,
                          db: Db, olympiad: int, validEmail: string -> bool)
    requires |lines| >= 1
    ensures var (r, db') := AcceptedFile(filename, lines, header, column, db, olympiad, validEmail);
      r.filename == filename && r.headerErrors == 0 && r.totalRecords == |lines| - 1 &&
      r.successful + r.competitorErrors == NonBlankCount(lines, |lines|) &&
      (r.errorFile.Some? <==> r.competitorErrors > 0) &&
      (r.errorFile.Some? ==> r.errorFile.value.name == ReportName(filename)) &&
      Grows(db, db', r.successful)
  {
    AcceptedFileIs(filename, lines, header, column, db, olympiad, validEmail);
    ScanFacts(lines, header, column, db, olympiad, validEmail);
  }

  /** The per-file facts the totals rely on. */
  predicate Consistent(r: FileResult) {
    r.headerErrors <= 1 && (r.headerErrors == 1 ==> r.competitorErrors == 0) &&
    (r.errorFile.Some? <==> r.headerErrors + r.competitorErrors > 0)
  }

  /** The result for a refused header: no row counted, one header error, and a report
      of all the original lines under that error. */
  function RejectedFile(filename: string, lines: seq<string>, raw: seq<string>): FileResult
    requires |lines| >= 1
  {
    FileResult(filename, 0, 0, 1, |lines| - 1,
               Some(ErrorReport(filename, raw, [ErrorEntry(1, map[], HeaderMessage)], Some(lines))))
  }

  /** processCsvFile: the header check, then the row loop. */
  function ProcessFile(filename: string, content: string, db: Db, olympiad: int,
                       validEmail: string -> bool): (FileResult, Db)
  {
    var lines := FileLines(content);
    var raw := GetCsv(lines[0], ',');
    var column := IndexOf(raw, "Errores");
    if !HeaderAccepted(raw) then (RejectedFile(filename, lines, raw), db)
    else
      AcceptedFile(filename, lines, DropColumn(raw, column), column, db, olympiad, validEmail)
  }

  /**
   * A rejected header stores nothing and reports one header error with a report of
   * the original lines; otherwise every non-blank data line is stored or reported,
   * the store gains one new contestant per stored line and keeps all earlier ones,
   * and a report exists exactly when a line was reported.
   */
  lemma ProcessFileFacts(filename: string, content: string, db: Db, olympiad: int, validEmail: string -> bool)
    ensures var (r, db') := ProcessFile(filename, content, db, olympiad, validEmail); var lines := FileLines(content);
      r.filename == filename && r.totalRecords == |lines| - 1 && Consistent(r) &&
      (r.headerErrors == 1 <==> !HeaderAccepted(GetCsv(lines[0], ','))) &&
      (r.headerErrors == 1 ==> r.successful == 0 && db' == db) &&
      (r.headerErrors == 0 ==> r.successful + r.competitorErrors == NonBlankCount(lines, |lines|)) &&
      (r.errorFile.Some? ==> r.errorFile.value.name == ReportName(filename)) &&
      Grows(db, db', r.successful)
  {
    var lines := FileLines(content);
    var raw := GetCsv(lines[0], ',');
    if HeaderAccepted(raw) {
      AcceptedFileFacts(filename, lines, DropColumn(raw, IndexOf(raw, "Errores")), IndexOf(raw, "Errores"),
                        db, olympiad, validEmail);
    }
  }

  /** The two branches of ProcessFile, one lemma each. */
  lemma ProcessFileRejected(filename: string, content: string, db: Db, olympiad: int, validEmail: string -> bool)
    requires !HeaderAccepted(GetCsv(FileLines(content)[0], ','))
    ensures var lines := FileLines(content); var raw := GetCsv(lines[0], ',');
      ProcessFile(filename, content, db, olympiad, validEmail) == (RejectedFile(filename, lines, raw), db)
  {
  }

  lemma ProcessFileAccepted(filename: string, content: string, db: Db, olympiad: int, validEmail: string -> bool)
    requires HeaderAccepted(GetCsv(FileLines(content)[0], ','))
    ensures var lines := FileLines(content); var raw := GetCsv(lines[0], ','); var column := IndexOf(raw, "Errores");
      ProcessFile(filename, content, db, olympiad, validEmail) ==
        AcceptedFile(filename, lines, DropColumn(raw, column), column, db, olympiad, validEmail)
  {
  }

  /** AcceptedFile in terms of the row loop. */
  lemma AcceptedFileIs(filename: string, lines: seq<string>, header: seq<string>, column: Option<nat>,
                       db: Db, olympiad: int, validEmail: string -> bool)
    requires |lines| >= 1
    ensures var p := Scan(lines, header, column, olympiad, Validation(olympiad, validEmail), Progress(db, [], 0, {}), |lines|);
      AcceptedFile(filename, lines, header, column, db, olympiad, validEmail) ==
        (FileResult(filename, p.successful, |p.errors|, 0, |lines| - 1,
                    if |p.errors| > 0 then Some(ErrorReport(filename, header, p.errors, None)) else None), p.db)
  {
  }

  // ---------------------------------------------------------------------
  // The upload

  datatype CsvFile = CsvFile(name: string, content: string)

  /** The counters uploadCsv adds up over the files. */
  datatype Totals = Totals(
    records: nat, successful: nat, competitorErrors: nat, headerErrors: nat,
    filesWithErrors: nat, filesWithHeaderErrors: nat, filesWithCompetitorErrors: nat,
    errorFiles: seq<string>)

  function AddResult(t: Totals, r: FileResult): Totals {
    var failed := r.headerErrors > 0 || r.competitorErrors > 0;
    Totals(t.records + r.totalRecords, t.successful + r.successful,
           t.competitorErrors + r.competitorErrors, t.headerErrors + r.headerErrors,
           t.filesWithErrors + (if failed then 1 else 0),
           t.filesWithHeaderErrors + (if r.headerErrors > 0 then 1 else 0),
           t.filesWithCompetitorErrors + (if r.competitorErrors > 0 then 1 else 0),
           t.errorFiles + (if failed && r.errorFile.Some? then [r.errorFile.value.name] else []))
  }

  const NoTotals: Totals := Totals(0, 0, 0, 0, 0, 0, 0, [])

  function Tally(results: seq<FileResult>): Totals {
    if results == [] then NoTotals
    else AddResult(Tally(results[..|results| - 1]), results[|results| - 1])
  }

  /** total_errors of the response. */
  function TotalErrors(t: Totals): nat {
    t.competitorErrors + t.headerErrors
  }

  datatype Upload =
    | Rejected(message: string)
    | Processed(filesProcessed: nat, totals: Totals, details: seq<FileResult>)

  /** The uploaded files that are present (array_filter of the nulls). */
  function Present(files: seq<Option<CsvFile>>): (r: seq<CsvFile>)
    ensures |r| <= |files|
    ensures forall f :: f in r <==> Some(f) in files
  {
    if files == [] then []
    else
      var init := Present(files[..|files| - 1]);
      match files[|files| - 1]
      case None => init
      case Some(f) => init + [f]
  }

  /** The totals agree with each other: a file with errors has header errors or
      competitor errors but not both, every such file lists its report, and each header
      error is a file of its own. */
  predicate TotalsAgree(t: Totals) {
    t.filesWithErrors == t.filesWithHeaderErrors + t.filesWithCompetitorErrors &&
    |t.errorFiles| == t.filesWithErrors &&
    t.headerErrors == t.filesWithHeaderErrors &&
    t.filesWithCompetitorErrors <= t.competitorErrors
  }

  /** Adding a consistent file result keeps the totals in agreement. */
  lemma AddAgrees(t: Totals, r: FileResult)
    requires TotalsAgree(t) && Consistent(r)
    ensures TotalsAgree(AddResult(t, r))
  {
  }

  /** processCsvFile over the files in order, each on the store the previous one left. */
  function ProcessAll(files: seq<CsvFile>, db: Db, olympiad: int, validEmail: string -> bool): (res: (seq<FileResult>, Db))
    ensures |res.0| == |files|
  {
    if files == [] then ([], db)
    else
      var (rs, db1) := ProcessAll(files[..|files| - 1], db, olympiad, validEmail);
      var f := files[|files| - 1];
      var (r, db2) := ProcessFile(f.name, f.content, db1, olympiad, validEmail);
      (rs + [r], db2)
  }

  /** Across files the totals agree with each other, and the store keeps everything and
      gains one contestant per stored row. */
  lemma {:induction false} ProcessAllAgrees(files: seq<CsvFile>, db: Db, olympiad: int, validEmail: string -> bool)
    ensures var res := ProcessAll(files, db, olympiad, validEmail);
      TotalsAgree(Tally(res.0)) && Grows(db, res.1, Tally(res.0).successful)
  {
    if files != [] {
      ProcessAllAgrees(files[..|files| - 1], db, olympiad, validEmail);
      var (rs, db1) := ProcessAll(files[..|files| - 1], db, olympiad, validEmail);
      var f := files[|files| - 1];
      var (r, db2) := ProcessFile(f.name, f.content, db1, olympiad, validEmail);
      ProcessFileFacts(f.name, f.content, db1, olympiad, validEmail);
      TallySnoc(rs, r);
      AddAgrees(Tally(rs), r);
      GrowsTrans(db, db1, db2, Tally(rs).successful, r.successful);
    }
  }

  /** One more file: ProcessAll on a longer prefix processes the next file on the store
      the prefix left. */
  lemma ProcessAllStep(files: seq<CsvFile>, k: nat, db: Db, olympiad: int, validEmail: string -> bool)
    requires k < |files|
    ensures var (rs, db1) := ProcessAll(files[..k], db, olympiad, validEmail);
      var (r, db2) := ProcessFile(files[k].name, files[k].content, db1, olympiad, validEmail);
      ProcessAll(files[..k + 1], db, olympiad, validEmail) == (rs + [r], db2)
  {
    assert files[..k + 1][..k] == files[..k];
  }

  lemma TallySnoc(rs: seq<FileResult>, r: FileResult)
    ensures Tally(rs + [r]) == AddResult(Tally(rs), r)
  {
    assert (rs + [r])[..|rs|] == rs;
  }

  /** Two sets of counters added field by field, the report names one after the other. */
  function AddTotals(t: Totals, u: Totals): Totals {
    Totals(t.records + u.records, t.successful + u.successful,
           t.competitorErrors + u.competitorErrors, t.headerErrors + u.headerErrors,
           t.filesWithErrors + u.filesWithErrors, t.filesWithHeaderErrors + u.filesWithHeaderErrors,
           t.filesWithCompetitorErrors + u.filesWithCompetitorErrors, t.errorFiles + u.errorFiles)
  }

  /** The totals are sums over the files: the counters of a batch are those of its first
      part plus those of the rest. */
  lemma {:induction false} TallyAppend(a: seq<FileResult>, b: seq<FileResult>)
    ensures Tally(a + b) == AddTotals(Tally(a), Tally(b))
    decreases |b|
  {
    if b == [] {
      calc {
        Tally(a + b);
        { assert a + b == a; }
        Tally(a);
        { AddNoTotals(Tally(a)); }
        AddTotals(Tally(a), NoTotals);
      }
    } else {
      var b', r := b[..|b| - 1], b[|b| - 1];
      calc {
        Tally(a + b);
        { assert a + b == (a + b') + [r]; TallySnoc(a + b', r); }
        AddResult(Tally(a + b'), r);
        { TallyAppend(a, b'); }
        AddResult(AddTotals(Tally(a), Tally(b')), r);
        { AddResultLast(Tally(a), Tally(b'), r); }
        AddTotals(Tally(a), AddResult(Tally(b'), r));
        { assert b == b' + [r]; TallySnoc(b', r); }
        AddTotals(Tally(a), Tally(b));
      }
    }
  }

  lemma AddNoTotals(t: Totals)
    ensures AddTotals(t, NoTotals) == t
  {
    assert t.errorFiles + [] == t.errorFiles;
  }

  lemma AddResultLast(t: Totals, u: Totals, r: FileResult)
    ensures AddResult(AddTotals(t, u), r) == AddTotals(t, AddResult(u, r))
  {
    var failed := r.headerErrors > 0 || r.competitorErrors > 0;
    var names := if failed && r.errorFile.Some? then [r.errorFile.value.name] else [];
    assert (t.errorFiles + u.errorFiles) + names == t.errorFiles + (u.errorFiles + names);
  }

  /** One file on its own: it counts towards files with errors exactly when it has header
      or competitor errors, and total_errors is its header plus competitor errors. */
  lemma TallyOne(r: FileResult)
    ensures var t := Tally([r]);
      (t.filesWithErrors == 1 <==> r.headerErrors > 0 || r.competitorErrors > 0) &&
      t.filesWithErrors <= 1 && t.successful == r.successful && t.records == r.totalRecords &&
      TotalErrors(t) == r.competitorErrors + r.headerErrors
  {
    assert [r][..0] == [];
  }

  /** uploadCsv after its request validation: refused without files, otherwise every
      present file is processed in order on one store. */
  function UploadOf(files: seq<Option<CsvFile>>, db: Db, olympiad: int, validEmail: string -> bool): (Upload, Db) {
    var present := Present(files);
    if present == [] then (Rejected("No valid files provided"), db)
    else
      var (rs, db') := ProcessAll(present, db, olympiad, validEmail);
      (Processed(|present|, Tally(rs), rs), db')
  }

  /** The upload is refused exactly when no file is present, and then stores nothing;
      otherwise it reports every present file, its totals agree with each other and the
      store has one new contestant per registered row. */
  lemma UploadFacts(files: seq<Option<CsvFile>>, db: Db, olympiad: int, validEmail: string -> bool)
    ensures var (u, db') := UploadOf(files, db, olympiad, validEmail);
      (u.Rejected? <==> Present(files) == []) &&
      (u.Rejected? ==> u.message == "No valid files provided" && db' == db) &&
      (u.Processed? ==>
        u.filesProcessed == |u.details| == |Present(files)| &&
        TotalsAgree(u.totals) && Grows(db, db', u.totals.successful))
  {
    if Present(files) != [] {
      ProcessAllAgrees(Present(files), db, olympiad, validEmail);
    }
  }
}
