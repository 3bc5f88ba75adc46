/**
 * generateErrorCsv of the strict intake: the text of the error report and its
 * file name. Writing the text to storage is not modelled; the report is the
 * pair of name and content.
 */
module StrictReport {
  import opened Php
  import opened StrictStore

  /** The 14 column labels of the strict CSV format, in order. */
  const ExpectedHeader: seq<string> := [
    "N.", "CI", "NOMBRE", "APELLIDO", "GENERO", "DEPARTAMENTO",
    "COLEGIO", "CELULAR", "E-MAIL", "AREA", "GRADO", "NIVEL",
    "NUMERO TUTOR", "NOMBRE TUTOR"]

  /** An entry of `$errors`: the row number, the cells of the row (empty for a
      header or column-count error) and the message that goes to 'Errores'. */
  datatype ErrorEntry = ErrorEntry(rowNumber: nat, fields: Record, message: string)

  datatype Report = Report(name: string, content: string)

  /** A line the loops skip: empty(trim($line)). */
  predicate Blank(line: string) {
    IsEmpty(Trim(line))
  }

  // ---------------------------------------------------------------------
  // Quoting

  /** str_replace('"', '""', $v). */
  function Escape(v: string): (r: string)
    ensures |r| >= |v|
    ensures '\n' !in v ==> '\n' !in r
  {
    if v == [] then ""
    else (if v[0] == '"' then "\"\"" else [v[0]]) + Escape(v[1..])
  }

  /** Reading an escaped value back: each doubled quote is one quote. */
  function Unescape(s: string): string
    decreases |s|
  {
    if s == [] then ""
    else if |s| >= 2 && s[0] == '"' && s[1] == '"' then "\"" + Unescape(s[2..])
    else [s[0]] + Unescape(s[1..])
  }

  /** Escaping loses nothing: reading the doubled quotes back gives the value. */
  lemma {:induction false} UnescapeEscape(v: string)
    ensures Unescape(Escape(v)) == v
    decreases |v|
  {
    if v != [] {
      UnescapeEscape(v[1..]);
      var e := Escape(v);
      if v[0] == '"' {
        assert e == "\"\"" + Escape(v[1..]);
        assert e[2..] == Escape(v[1..]);
      } else {
        assert e == [v[0]] + Escape(v[1..]);
        assert e[1..] == Escape(v[1..]);
      }
      assert v == [v[0]] + v[1..];
    }
  }

  /** One field as the report writes it: in double quotes, inner quotes doubled. */
  function Quote(v: string): (r: string)
    ensures |r| >= 2 && r[0] == '"' && r[|r| - 1] == '"'
    ensures r[1..|r| - 1] == Escape(v)
  {
    "\"" + Escape(v) + "\""
  }

  function QuoteAll(fields: seq<string>): (r: seq<string>)
    ensures |r| == |fields|
  {
    seq(|fields|, k requires 0 <= k < |fields| => Quote(fields[k]))
  }

  /** implode(',', array_map(quote, $fields)). */
  function CsvLine(fields: seq<string>): string {
    JoinWith(QuoteAll(fields), ",")
  }

  /** A field taken out of its quotes and unescaped is the original value. */
  lemma QuoteRoundTrip(v: string)
    ensures var q := Quote(v); Unescape(q[1..|q| - 1]) == v
  {
    UnescapeEscape(v);
  }

  lemma {:induction false} JoinNoNewline(parts: seq<string>, sep: string)
    requires '\n' !in sep
    requires forall k :: 0 <= k < |parts| ==> '\n' !in parts[k]
    ensures '\n' !in JoinWith(parts, sep)
    decreases |parts|
  {
    if |parts| > 1 {
      var init := parts[..|parts| - 1];
      assert forall k :: 0 <= k < |init| ==> init[k] == parts[k];
      JoinNoNewline(init, sep);
    }
  }

  /** Fields without newlines give a report line without newlines. */
  lemma CsvLineNoNewline(fields: seq<string>)
    requires forall k :: 0 <= k < |fields| ==> '\n' !in fields[k]
    ensures '\n' !in CsvLine(fields)
  {
    var q := QuoteAll(fields);
    forall k | 0 <= k < |q|
      ensures '\n' !in q[k]
    {
      assert q[k] == "\"" + Escape(fields[k]) + "\"";
    }
    JoinNoNewline(q, ",");
  }

  // ---------------------------------------------------------------------
  // File name

  /** The position of the last occurrence of `c`. */
  function LastIndexOf(s: string, c: char): (r: Option<nat>)
    ensures r.Some? ==> r.value < |s| && s[r.value] == c && c !in s[r.value + 1..]
    ensures r.None? ==> c !in s
  {
    if s == [] then None
    else if s[|s| - 1] == c then Some(|s| - 1)
    else LastIndexOf(s[..|s| - 1], c)
  }

  /** pathinfo($name, PATHINFO_FILENAME): after the last '/', before the last '.'. */
  function FileStem(name: string): string {
    var base := match LastIndexOf(name, '/') case None => name case Some(k) => name[k + 1..];
    match LastIndexOf(base, '.') case None => base case Some(k) => base[..k]
  }

  function ReportName(filename: string): string {
    FileStem(filename) + "-errores.csv"
  }

  /** The report of "<stem>.<ext>" is "<stem>-errores.csv". */
  lemma ReportNameOf(stem: string, ext: string)
    requires '/' !in stem && '/' !in ext && '.' !in ext
    ensures ReportName(stem + "." + ext) == stem + "-errores.csv"
  {
    var name := stem + "." + ext;
    assert '/' !in name;
    assert LastIndexOf(name, '/') == None;
    var k := |stem|;
    assert name[k] == '.' && name[k + 1..] == ext;
    var r := LastIndexOf(name, '.');
    assert r.Some?;
    assert r.value == k;
    assert name[..k] == stem;
  }

  // ---------------------------------------------------------------------
  // Content

  /** The first entry whose row number is 1: the header error, if any. */
  function HeaderError(errors: seq<ErrorEntry>): (r: Option<ErrorEntry>)
    ensures r.Some? ==> r.value in errors && r.value.rowNumber == 1
    ensures r.Some? ==> exists k :: 0 <= k < |errors| && errors[k] == r.value &&
                          forall j :: 0 <= j < k ==> errors[j].rowNumber != 1
    ensures r.None? ==> forall k :: 0 <= k < |errors| ==> errors[k].rowNumber != 1
  {
    if errors == [] then None
    else if errors[0].rowNumber == 1 then Some(errors[0])
    else HeaderError(errors[1..])
  }

  /** The correction appended to the header error: the expected labels, comma-separated. */
  const HeaderCorrection: string :=
    " | CORRECCI\U{C3}\U{93}N: Cambie las cabeceras a: " + JoinWith(ExpectedHeader, ", ")

  const SeeAbove: string := "Ver fila anterior para detalles del error de cabeceras"

  /** The 'Errores' cell of original line `i` when a header error is reported. */
  function HeaderNote(errors: seq<ErrorEntry>, i: nat): string {
    match HeaderError(errors)
    case None => ""
    case Some(e) => if i == 1 then "ERROR EN CABECERAS: " + e.message + HeaderCorrection else SeeAbove
  }

  /** The row without the cell under the first 'Errores' column, when the row has one. */
  function DropColumn(row: seq<string>, column: Option<nat>): (r: seq<string>)
    ensures |r| <= |row|
  {
    if column.Some? && column.value < |row| then RemoveAt(row, column.value) else row
  }

  /** Header-error mode: every non-blank line after the first, without its 'Errores'
      cell, followed by its note; lines[1..n] so far. */
  function AnnotatedRows(header: seq<string>, errors: seq<ErrorEntry>, lines: seq<string>, n: nat): seq<seq<string>>
    requires 1 <= n <= |lines|
  {
    if n == 1 then []
    else
      var prev := AnnotatedRows(header, errors, lines, n - 1);
      var line := lines[n - 1];
      if Blank(line) then prev
      else prev + [DropColumn(GetCsv(line, ','), IndexOf(header, "Errores")) + [HeaderNote(errors, n - 1)]]
  }

  /** `$error[$field] ?? ''` for every header field. */
  function CellsOf(fields: Record, header: seq<string>): (r: seq<string>)
    ensures |r| == |header|
  {
    seq(|header|, j requires 0 <= j < |header| => Get(fields, header[j]))
  }

  /** Row-error mode: one row per error, its cells under the header and the message. */
  function ErrorRows(header: seq<string>, errors: seq<ErrorEntry>): (rows: seq<seq<string>>)
    ensures |rows| == |errors|
  {
    seq(|errors|, k requires 0 <= k < |errors| => CellsOf(errors[k].fields, header) + [errors[k].message])
  }

  function CsvLines(rows: seq<seq<string>>): (r: seq<string>)
    ensures |r| == |rows|
  {
    seq(|rows|, k requires 0 <= k < |rows| => CsvLine(rows[k]))
  }

  /** Whether the report annotates the original lines (a header error) or lists the errors. */
  predicate HeaderMode(lines: Option<seq<string>>) {
    lines.Some? && lines.value != []
  }

  function ReportRows(header: seq<string>, errors: seq<ErrorEntry>, lines: Option<seq<string>>): seq<seq<string>> {
    if HeaderMode(lines) then AnnotatedRows(header, errors, lines.value, |lines.value|)
    else ErrorRows(header, errors)
  }

  /** The report: its name, and the header plus 'Errores' followed by one line per row. */
  function ErrorReport(filename: string, header: seq<string>, errors: seq<ErrorEntry>,
                       lines: Option<seq<string>>): Report {
    Report(ReportName(filename),
           Text([CsvLine(header + ["Errores"])] + CsvLines(ReportRows(header, errors, lines))))
  }

  /** The number of non-blank lines among lines[1..n]. */
  function NonBlankCount(lines: seq<string>, n: nat): (c: nat)
    requires 1 <= n <= |lines|
    ensures c <= n - 1
  {
    if n == 1 then 0 else NonBlankCount(lines, n - 1) + (if Blank(lines[n - 1]) then 0 else 1)
  }

  /** In header-error mode the report has one line per non-blank data line. */
  lemma {:induction false} AnnotatedRowCount(header: seq<string>, errors: seq<ErrorEntry>, lines: seq<string>, n: nat)
    requires 1 <= n <= |lines|
    ensures |AnnotatedRows(header, errors, lines, n)| == NonBlankCount(lines, n)
  {
    if n > 1 {
      AnnotatedRowCount(header, errors, lines, n - 1);
    }
  }

  /** Nothing in an entry contains a newline. */
  predicate OneLine(header: seq<string>, e: ErrorEntry) {
    '\n' !in e.message && forall j :: 0 <= j < |header| ==> '\n' !in Get(e.fields, header[j])
  }

  /** Entries without newlines give report lines without newlines. */
  lemma ErrorLinesOneLine(header: seq<string>, errors: seq<ErrorEntry>)
    requires forall k :: 0 <= k < |errors| ==> OneLine(header, errors[k])
    ensures forall k :: 0 <= k < |errors| ==> '\n' !in CsvLines(ErrorRows(header, errors))[k]
  {
    var rows := ErrorRows(header, errors);
    forall k | 0 <= k < |rows|
      ensures '\n' !in CsvLines(rows)[k]
    {
      var r := rows[k];
      assert OneLine(header, errors[k]);
      assert forall j :: 0 <= j < |r| ==> '\n' !in r[j];
      CsvLineNoNewline(r);
    }
  }

  /**
   * In row-error mode, read back line by line, the report is its header line
   * followed by exactly one line per recorded error, in order.
   */
  lemma RowModeLines(filename: string, header: seq<string>, errors: seq<ErrorEntry>, lines: Option<seq<string>>)
    requires !HeaderMode(lines)
    requires forall j :: 0 <= j < |header| ==> '\n' !in header[j]
    requires forall k :: 0 <= k < |errors| ==> OneLine(header, errors[k])
    ensures var ls := CsvLines(ErrorRows(header, errors));
      SplitOn(ErrorReport(filename, header, errors, lines).content, {'\n'}) ==
        [CsvLine(header + ["Errores"])] + ls + [""] &&
      |ls| == |errors| &&
      forall k :: 0 <= k < |errors| ==> ls[k] == CsvLine(CellsOf(errors[k].fields, header) + [errors[k].message])
  {
    var ls := CsvLines(ErrorRows(header, errors));
    var h := header + ["Errores"];
    assert forall j :: 0 <= j < |h| ==> '\n' !in h[j];
    CsvLineNoNewline(h);
    ErrorLinesOneLine(header, errors);
    HeadedTextSplit(CsvLine(h), ls);
  }

  /** A header line and further lines, none holding a newline, read back apart. */
  lemma HeadedTextSplit(first: string, ls: seq<string>)
    requires '\n' !in first
    requires forall k :: 0 <= k < |ls| ==> '\n' !in ls[k]
    ensures SplitOn(Text([first] + ls), {'\n'}) == [first] + ls + [""]
  {
    var all := [first] + ls;
    forall i | 0 <= i < |all|
      ensures '\n' !in all[i]
    {
      if i > 0 { assert all[i] == ls[i - 1]; }
    }
    TextSplit(all);
  }

  // ---------------------------------------------------------------------
  // The imperative generator

  /** The loop that looks for the header error among the recorded errors. */
  method FindHeaderError(errors: seq<ErrorEntry>) returns (found: Option<ErrorEntry>)
    ensures found == HeaderError(errors)
  {
    found := None;
    var k := 0;
    while k < |errors|
      invariant 0 <= k <= |errors|
      invariant HeaderError(errors) == HeaderError(errors[k..])
    {
      if errors[k].rowNumber == 1 {
        found := Some(errors[k]);
        return;
      }
      assert errors[k..][1..] == errors[k + 1..];
      k := k + 1;
    }
  }

  /** Writing one more row adds its line at the end of the text. */
  lemma AppendLine(first: string, done: seq<seq<string>>, row: seq<string>)
    ensures Text([first] + CsvLines(done + [row])) == Text([first] + CsvLines(done)) + CsvLine(row) + "\n"
  {
    assert CsvLines(done + [row]) == CsvLines(done) + [CsvLine(row)];
    assert [first] + CsvLines(done + [row]) == ([first] + CsvLines(done)) + [CsvLine(row)];
    TextSnoc([first] + CsvLines(done), CsvLine(row));
  }

  /** One step of the header-error fold. */
  lemma AnnotatedStep(header: seq<string>, errors: seq<ErrorEntry>, ls: seq<string>, i: nat)
    requires 1 <= i < |ls|
    ensures AnnotatedRows(header, errors, ls, i + 1) ==
      if Blank(ls[i]) then AnnotatedRows(header, errors, ls, i)
      else AnnotatedRows(header, errors, ls, i) + [DropColumn(GetCsv(ls[i], ','), IndexOf(header, "Errores")) + [HeaderNote(errors, i)]]
  {
  }

  /** One original line in header-error mode: its cells without 'Errores', and its note. */
  method AnnotateLine(header: seq<string>, errors: seq<ErrorEntry>, line: string, i: nat) returns (row: seq<string>)
    ensures row == DropColumn(GetCsv(line, ','), IndexOf(header, "Errores")) + [HeaderNote(errors, i)]
  {
    row := GetCsv(line, ',');
    var column := IndexOf(header, "Errores");
    if column.Some? && column.value < |row| {
      row := RemoveAt(row, column.value);
    }
    var note := "";
    if errors != [] {
      var headerError := FindHeaderError(errors);
      if headerError.Some? {
        if i == 1 {
          note := "ERROR EN CABECERAS: " + headerError.value.message + HeaderCorrection;
        } else {
          note := SeeAbove;
        }
      }
    }
    row := row + [note];
  }

  /** The header-error loop over the original lines, after the header line `first`. */
  method AnnotateLines(header: seq<string>, errors: seq<ErrorEntry>, ls: seq<string>, first: string)
    returns (content: string)
    requires ls != []
    ensures content == Text([first] + CsvLines(AnnotatedRows(header, errors, ls, |ls|)))
  {
    content := first + "\n";
    ghost var done: seq<seq<string>> := [];
    var i := 1;
    while i < |ls|
      invariant 1 <= i <= |ls|
      invariant done == AnnotatedRows(header, errors, ls, i)
      invariant content == Text([first] + CsvLines(done))
    {
      AnnotatedStep(header, errors, ls, i);
      if !Blank(ls[i]) {
        var row := AnnotateLine(header, errors, ls[i], i);
        AppendLine(first, done, row);
        done := done + [row];
        content := content + CsvLine(row) + "\n";
      }
      i := i + 1;
    }
  }

  /** One error in row-error mode: the cell of each header field, then the message. */
  method ErrorLine(header: seq<string>, e: ErrorEntry) returns (row: seq<string>)
    ensures row == CellsOf(e.fields, header) + [e.message]
  {
    row := [];
    var j := 0;
    while j < |header|
      invariant 0 <= j <= |header|
      invariant row == CellsOf(e.fields, header[..j])
    {
      row := row + [Get(e.fields, header[j])];
      j := j + 1;
    }
    assert header[..|header|] == header;
    row := row + [e.message];
  }

  /** The row-error loop over the errors, after the header line `first`. */
  method ListErrors(header: seq<string>, errors: seq<ErrorEntry>, first: string) returns (content: string)
    ensures content == Text([first] + CsvLines(ErrorRows(header, errors)))
  {
    content := first + "\n";
    ghost var done: seq<seq<string>> := [];
    var k := 0;
    while k < |errors|
      invariant 0 <= k <= |errors|
      invariant done == ErrorRows(header, errors[..k])
      invariant content == Text([first] + CsvLines(done))
    {
      var row := ErrorLine(header, errors[k]);
      AppendLine(first, done, row);
      assert ErrorRows(header, errors[..k + 1]) == ErrorRows(header, errors[..k]) + [row];
      done := done + [row];
      content := content + CsvLine(row) + "\n";
      k := k + 1;
    }
    assert errors[..|errors|] == errors;
  }

  /** generateErrorCsv: the header line, then the annotated original lines
      (header error) or one line per error. */
  method GenerateErrorCsv(filename: string, header: seq<string>, errors: seq<ErrorEntry>,
                          lines: Option<seq<string>>) returns (report: Report)
    ensures report == ErrorReport(filename, header, errors, lines)
  {
    var first := CsvLine(header + ["Errores"]);
    var content;
    if lines.Some? && lines.value != [] {
      content := AnnotateLines(header, errors, lines.value, first);
    } else {
      content := ListErrors(header, errors, first);
    }
    report := Report(ReportName(filename), content);
  }
}
