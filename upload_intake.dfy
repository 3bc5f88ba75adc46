/**
 * The row semantics of the upsert intake (Api/CompetitorUploadController
 * processCsvFile) over an abstract store: contestants keyed by CI document, the
 * tutor, school, level, grade and area catalogs as sets of their lookup keys, and
 * inscriptions as (CI, area, level) triples. The functions here are the
 * specification the class in UploadRun is proved against.
 */
module UploadIntake {
  import opened Php
  import opened UploadHeader

  /** A tutors row, found by its phone and e-mail (null when absent). */
  datatype Tutor = Tutor(phone: Option<string>, email: Option<string>)

  /** The columns updateOrCreate writes; related rows are named by their keys. */
  datatype Contestant = Contestant(
    name: string,
    lastname: string,
    gender: Option<string>,
    tutor: Option<Tutor>,
    school: Option<string>,
    department: Option<string>,
    grade: Option<string>)

  datatype Inscription = Inscription(document: string, area: string, level: string)

  datatype Store = Store(
    contestants: map<string, Contestant>,
    tutors: set<Tutor>,
    schools: set<string>,
    levels: set<string>,
    grades: set<string>,
    areas: set<string>,
    inscriptions: set<Inscription>)

  datatype RowError = RowError(row: nat, message: string)

  /** The per-file statistics record. */
  datatype Stats = Stats(
    processed: nat,
    createdContestants: nat,
    updatedContestants: nat,
    createdInscriptions: nat,
    skippedDuplicateArea: nat,
    errors: seq<RowError>)

  /** The three answers of processCsvFile that this model reaches. */
  datatype Outcome = EmptyFile | MissingColumns(missing: seq<string>) | Processed(stats: Stats)

  /** The trimmed cells of one record. */
  datatype Fields = Fields(
    fullName: string,
    document: string,
    gender: string,
    department: string,
    school: string,
    phone: string,
    email: string,
    areas: string,
    level: string,
    grade: string)

  /** What a pass over one row's area names has done. */
  datatype AreaPass = AreaPass(store: Store, seen: set<string>, created: nat, skipped: nat)

  const MissingFieldsMessage: string := "Faltan campos obligatorios en la fila."

  /** PCRE \s: space, tab, line feed, vertical tab, form feed, carriage return. */
  const Whitespace: set<char> := {' ', '\t', '\n', '\U{B}', '\U{C}', '\r'}

  const AreaSeparators: set<char> := {',', ';', '|'}

  const NoStats: Stats := Stats(0, 0, 0, 0, 0, [])

  function Message(o: Outcome): string {
    match o
    case EmptyFile => "El archivo está vacío."
    case MissingColumns(_) => "El archivo no tiene el formato requerido. Verifique las columnas obligatorias."
    case Processed(_) => "Archivo procesado correctamente."
  }

  /** trim($row[$idx[$label]] ?? ''), and '' for a label the header lacks. */
  function Cell(row: seq<string>, idx: map<string, nat>, key: string): string {
    if key in idx && idx[key] < |row| then Trim(row[idx[key]]) else ""
  }

  function FieldsOf(row: seq<string>, idx: map<string, nat>): Fields {
    Fields(Cell(row, idx, "nombre"), Cell(row, idx, "doc."), Cell(row, idx, "gen"),
           Cell(row, idx, "dep."), Cell(row, idx, "colegio"), Cell(row, idx, "celular"),
           Cell(row, idx, "e-mail"), Cell(row, idx, "area"), Cell(row, idx, "nivel"),
           Cell(row, idx, "grado"))
  }

  /** The mandatory-field check, with strict comparison against ''. */
  predicate Incomplete(f: Fields) {
    f.fullName == "" || f.document == "" || f.areas == "" || f.level == ""
  }

  /** The name split: (name, lastname). */
  function SplitName(fullName: string): (string, string) {
    var parts := Words(fullName, Whitespace);
    if |parts| >= 2 then (Trim(JoinWith(parts[..|parts| - 1], " ")), parts[|parts| - 1])
    else (fullName, "")
  }

  /** `$x ?: null`: a falsy string ("" or "0") becomes null. */
  function OrNull(s: string): Option<string> {
    if IsEmpty(s) then None else Some(s)
  }

  /** `$x !== '' ? $x : null`. */
  function NonBlank(s: string): Option<string> {
    if s != "" then Some(s) else None
  }

  function TutorOf(f: Fields): Option<Tutor> {
    if f.phone != "" || f.email != "" then Some(Tutor(OrNull(f.phone), OrNull(f.email))) else None
  }

  function ContestantOf(f: Fields): Contestant {
    var (name, lastname) := SplitName(f.fullName);
    Contestant(name, lastname, NonBlank(f.gender), TutorOf(f), NonBlank(f.school),
               NonBlank(f.department), NonBlank(f.grade))
  }

  function OptionSet<T>(o: Option<T>): set<T> {
    if o.Some? then {o.value} else {}
  }

  /** The tutor, school, level and grade lookups and the contestant upsert. */
  function Catalogued(s: Store, f: Fields): Store {
    s.(contestants := s.contestants[f.document := ContestantOf(f)],
       tutors := s.tutors + OptionSet(TutorOf(f)),
       schools := s.schools + OptionSet(NonBlank(f.school)),
       levels := s.levels + {f.level},
       grades := s.grades + OptionSet(NonBlank(f.grade)))
  }

  function TrimEach(parts: seq<string>): (r: seq<string>)
    ensures |r| == |parts|
  {
    seq(|parts|, k requires 0 <= k < |parts| => Trim(parts[k]))
  }

  /** array_filter with no callback: the truthy strings, in order. */
  function Truthy(parts: seq<string>): seq<string> {
    if parts == [] then []
    else
      var x := parts[|parts| - 1];
      Truthy(parts[..|parts| - 1]) + (if IsEmpty(x) then [] else [x])
  }

  /** The area names of one row. */
  function AreaNames(cell: string): seq<string> {
    Truthy(TrimEach(SplitOn(cell, AreaSeparators)))
  }

  /** The foreach over the area names: each area is found or created by name; a name
      already seen in the row is counted as skipped, any other finds or creates the
      inscription (CI, area, level). */
  function AreaLoop(s: Store, document: string, level: string, names: seq<string>): AreaPass {
    if names == [] then AreaPass(s, {}, 0, 0)
    else AreaTurn(AreaLoop(s, document, level, names[..|names| - 1]), document, level, names[|names| - 1])
  }

  /** One turn of the area loop, for the name `a`. */
  function AreaTurn(p: AreaPass, document: string, level: string, a: string): AreaPass {
    var s1 := p.store.(areas := p.store.areas + {a});
    var t := Inscription(document, a, level);
    if a in p.seen then AreaPass(s1, p.seen, p.created, p.skipped + 1)
    else if t in s1.inscriptions then AreaPass(s1, p.seen + {a}, p.created, p.skipped)
    else AreaPass(s1.(inscriptions := s1.inscriptions + {t}), p.seen + {a}, p.created + 1, p.skipped)
  }

  /** One turn of the row loop. */
  function RowStep(s: Store, st: Stats, row: seq<string>, idx: map<string, nat>): (Store, Stats) {
    var n := st.processed + 1;
    var f := FieldsOf(row, idx);
    if Incomplete(f) then
      (s, st.(processed := n, errors := st.errors + [RowError(n, MissingFieldsMessage)]))
    else Stored(s, st, f)
  }

  /** The turn of the row loop for a row whose mandatory fields are all present. */
  function Stored(s: Store, st: Stats, f: Fields): (Store, Stats) {
    var created := f.document !in s.contestants;
    var p := AreaLoop(Catalogued(s, f), f.document, f.level, AreaNames(f.areas));
    (p.store, Stats(st.processed + 1,
                    st.createdContestants + (if created then 1 else 0),
                    st.updatedContestants + (if created then 0 else 1),
                    st.createdInscriptions + p.created,
                    st.skippedDuplicateArea + p.skipped,
                    st.errors))
  }

  /** The row loop over the records after the header. */
  function Rows(s: Store, st: Stats, rows: seq<seq<string>>, idx: map<string, nat>): (Store, Stats) {
    if rows == [] then (s, st)
    else
      var (s', st') := Rows(s, st, rows[..|rows| - 1], idx);
      RowStep(s', st', rows[|rows| - 1], idx)
  }

  /** processCsvFile over the records fgetcsv yields, header first. */
  function FileOf(s: Store, records: seq<seq<string>>): (Outcome, Store) {
    if records == [] then (EmptyFile, s)
    else
      var idx := IndexMap(NormalizeHeader(records[0]), ExpectedLabels);
      var missing := Missing(RequiredLabels, idx);
      if missing != [] then (MissingColumns(missing), s)
      else
        var (s', st) := Rows(s, NoStats, records[1..], idx);
        (Processed(st), s')
  }

  /** The row errors a run over `rows` records, numbering rows after `base`: an
      independent reference for the error list. */
  function ErrorsOf(base: nat, rows: seq<seq<string>>, idx: map<string, nat>): seq<RowError> {
    if rows == [] then []
    else
      ErrorsOf(base, rows[..|rows| - 1], idx) +
        (if Incomplete(FieldsOf(rows[|rows| - 1], idx)) then [RowError(base + |rows|, MissingFieldsMessage)] else [])
  }

  // ----- name split -----

  lemma {:induction false} JoinEnds(ws: seq<string>, sep: string)
    requires |ws| >= 1
    requires forall k :: 0 <= k < |ws| ==> ws[k] != ""
    ensures var j := JoinWith(ws, sep);
      j != [] && j[0] == ws[0][0] && j[|j| - 1] == ws[|ws| - 1][|ws[|ws| - 1]| - 1]
    decreases |ws|
  {
    if |ws| >= 2 {
      JoinEnds(ws[..|ws| - 1], sep);
    }
  }

  lemma {:induction false} SplitChars(s: string, seps: set<char>)
    ensures forall k, c :: 0 <= k < |SplitOn(s, seps)| && c in SplitOn(s, seps)[k] ==> c in s
    decreases |s|
  {
    if s != [] {
      var s', x := s[..|s| - 1], s[|s| - 1];
      SplitChars(s', seps);
      var p' := SplitOn(s', seps);
      var p := SplitOn(s, seps);
      assert p == AddChar(p', x, seps);
      assert s == s' + [x];
      forall k, c | 0 <= k < |p| && c in p[k]
        ensures c in s
      {
        if x !in seps && k == |p'| - 1 {
          assert p[k] == p'[k] + [x];
          assert c == x || c in p'[k];
          assert c == x || c in s';
        } else {
          assert k < |p'| && p[k] == p'[k];
          assert c in s';
        }
      }
    }
  }

  lemma {:induction false} NonEmptyIn(parts: seq<string>)
    ensures forall k :: 0 <= k < |NonEmpty(parts)| ==> NonEmpty(parts)[k] in parts
    decreases |parts|
  {
    if parts != [] {
      var init := parts[..|parts| - 1];
      NonEmptyIn(init);
      forall k | 0 <= k < |NonEmpty(parts)|
        ensures NonEmpty(parts)[k] in parts
      {
        if k < |NonEmpty(init)| {
          assert NonEmpty(parts)[k] == NonEmpty(init)[k];
          assert NonEmpty(init)[k] in init;
        }
      }
    }
  }

  /** The tokens of a full name: non-empty, free of whitespace, and made of its
      characters. */
  lemma NameTokens(fullName: string)
    ensures var parts := Words(fullName, Whitespace);
      forall k :: 0 <= k < |parts| ==>
        parts[k] != "" && NoneIn(parts[k], Whitespace) && forall c :: c in parts[k] ==> c in fullName
  {
    var p := SplitOn(fullName, Whitespace);
    NonEmptyIn(p);
    SplitChars(fullName, Whitespace);
    var parts := Words(fullName, Whitespace);
    forall k | 0 <= k < |parts|
      ensures NoneIn(parts[k], Whitespace) && forall c :: c in parts[k] ==> c in fullName
    {
      var m :| 0 <= m < |p| && p[m] == parts[k];
      assert NoneIn(p[m], Whitespace);
      forall c | c in parts[k]
        ensures c in fullName
      {
        assert c in p[m];
      }
    }
  }

  /** With two or more tokens the last one is the last name and the others, joined by
      single spaces, the name (when the name holds no NUL byte, the one character trim()
      removes that \s does not match); a single token leaves the full name as the name
      and the last name empty. */
  lemma SplitNameFacts(fullName: string)
    ensures var parts := Words(fullName, Whitespace); var (name, lastname) := SplitName(fullName);
      (|parts| < 2 ==> name == fullName && lastname == "") &&
      (|parts| >= 2 ==> lastname == parts[|parts| - 1] && lastname != "" && NoneIn(lastname, Whitespace)) &&
      (|parts| >= 2 && '\0' !in fullName ==>
         name == JoinWith(parts[..|parts| - 1], " ") && name + " " + lastname == JoinWith(parts, " "))
  {
    var parts := Words(fullName, Whitespace);
    NameTokens(fullName);
    if |parts| >= 2 && '\0' !in fullName {
      var init := parts[..|parts| - 1];
      var j := JoinWith(init, " ");
      JoinEnds(init, " ");
      var first, last := init[0], init[|init| - 1];
      assert first[0] in first && last[|last| - 1] in last;
      assert !IsTrimChar(j[0]) && !IsTrimChar(j[|j| - 1]);
      TrimIdle(j);
    }
  }

  // ----- area names -----

  lemma {:induction false} InTruthy(parts: seq<string>, x: string)
    ensures x in Truthy(parts) <==> x in parts && !IsEmpty(x)
    decreases |parts|
  {
    if parts != [] {
      InTruthy(parts[..|parts| - 1], x);
      assert parts == parts[..|parts| - 1] + [parts[|parts| - 1]];
    }
  }

  /** Every area name is the trimmed text of one piece between separators, neither ''
      nor '0', and holds no separator. */
  lemma AreaNameFacts(cell: string, a: string)
    ensures a in AreaNames(cell) <==> a in TrimEach(SplitOn(cell, AreaSeparators)) && !IsEmpty(a)
    ensures a in AreaNames(cell) ==> a != "" && Trim(a) == a && NoneIn(a, AreaSeparators)
  {
    var p := SplitOn(cell, AreaSeparators);
    InTruthy(TrimEach(p), a);
    if a in AreaNames(cell) {
      var k :| 0 <= k < |p| && TrimEach(p)[k] == a;
      TrimTwice(p[k]);
      TrimInside(p[k]);
      assert NoneIn(p[k], AreaSeparators);
    }
  }

  /** What trim() leaves is a contiguous piece of its input. */
  lemma TrimInside(s: string)
    ensures forall j :: 0 <= j < |Trim(s)| ==> Trim(s)[j] in s
  {
    TrimStartShape(s);
    var t := TrimStart(s);
    TrimEndShape(t);
    forall j | 0 <= j < |Trim(s)|
      ensures Trim(s)[j] in s
    {
      assert Trim(s)[j] == t[j] == s[|s| - |t| + j];
    }
  }

  // ----- the area loop -----

  /** The names seen are exactly the row's names, and each name either counts as a
      skipped repeat or is seen once. */
  lemma {:induction false} AreaSeen(s: Store, document: string, level: string, names: seq<string>)
    ensures var p := AreaLoop(s, document, level, names);
      (forall a :: a in p.seen <==> a in names) && p.skipped + |p.seen| == |names|
    decreases |names|
  {
    if names != [] {
      var init, a := names[..|names| - 1], names[|names| - 1];
      AreaSeen(s, document, level, init);
      var p := AreaLoop(s, document, level, init);
      TurnSeen(p, document, level, a);
      assert names == init + [a];
    }
  }

  lemma TurnSeen(p: AreaPass, document: string, level: string, a: string)
    ensures var q := AreaTurn(p, document, level, a);
      q.seen == p.seen + {a} && q.skipped + |q.seen| == p.skipped + |p.seen| + 1
  {
  }

  /** The areas gained are exactly the row's names, and only areas and inscriptions
      change. */
  lemma {:induction false} AreaCatalog(s: Store, document: string, level: string, names: seq<string>)
    ensures var p := AreaLoop(s, document, level, names);
      (forall a :: a in p.store.areas <==> a in s.areas || a in names) &&
      p.store == s.(areas := p.store.areas, inscriptions := p.store.inscriptions)
    decreases |names|
  {
    if names != [] {
      var init, a := names[..|names| - 1], names[|names| - 1];
      AreaCatalog(s, document, level, init);
      assert names == init + [a];
    }
  }

  /** created counts the inscriptions the pass adds, and none is removed. */
  lemma {:induction false} AreaCreated(s: Store, document: string, level: string, names: seq<string>)
    ensures var p := AreaLoop(s, document, level, names);
      |p.store.inscriptions| == |s.inscriptions| + p.created && s.inscriptions <= p.store.inscriptions
    decreases |names|
  {
    if names != [] {
      AreaCreated(s, document, level, names[..|names| - 1]);
    }
  }

  /** The inscriptions gained are exactly (CI, name, level) for the row's names. */
  lemma {:induction false} AreaInscribed(s: Store, document: string, level: string, names: seq<string>)
    ensures var p := AreaLoop(s, document, level, names);
      forall t :: t in p.store.inscriptions <==>
        t in s.inscriptions || (t.document == document && t.level == level && t.area in names)
    decreases |names|
  {
    if names != [] {
      var init, a := names[..|names| - 1], names[|names| - 1];
      AreaInscribed(s, document, level, init);
      AreaSeen(s, document, level, init);
      TurnInscribed(AreaLoop(s, document, level, init), document, level, a);
      assert names == init + [a];
    }
  }

  lemma TurnInscribed(p: AreaPass, document: string, level: string, a: string)
    ensures forall t :: t in AreaTurn(p, document, level, a).store.inscriptions <==>
      t in p.store.inscriptions || (a !in p.seen && t == Inscription(document, a, level))
  {
  }

  // ----- one row -----

  /** A row with a missing mandatory field is reported with its ordinal and changes
      nothing else; any other row creates no error. */
  lemma RowReported(s: Store, st: Stats, row: seq<string>, idx: map<string, nat>)
    ensures var (s', st') := RowStep(s, st, row, idx);
      st'.processed == st.processed + 1 &&
      (Incomplete(FieldsOf(row, idx)) ==>
         s' == s && st' == st.(processed := st'.processed,
                                errors := st.errors + [RowError(st'.processed, MissingFieldsMessage)])) &&
      (!Incomplete(FieldsOf(row, idx)) ==> st'.errors == st.errors)
  {
  }

  /** A complete row upserts its contestant: afterwards exactly the CI gains or keeps
      one entry holding the row's values, the other contestants are unchanged, and
      exactly one of created or updated counts it, created when the CI was new. */
  lemma RowStored(s: Store, st: Stats, row: seq<string>, idx: map<string, nat>)
    requires !Incomplete(FieldsOf(row, idx))
    ensures var f := FieldsOf(row, idx); var (s', st') := RowStep(s, st, row, idx);
      s'.contestants == s.contestants[f.document := ContestantOf(f)] &&
      (f.document !in s.contestants ==>
         st'.createdContestants == st.createdContestants + 1 && st'.updatedContestants == st.updatedContestants) &&
      (f.document in s.contestants ==>
         st'.createdContestants == st.createdContestants && st'.updatedContestants == st.updatedContestants + 1)
  {
    var f := FieldsOf(row, idx);
    AreaCatalog(Catalogued(s, f), f.document, f.level, AreaNames(f.areas));
  }

  /** The counters of one row: one more processed row is one more created, updated or
      error; contestants grow by the created count and inscriptions by the created
      inscriptions, and nothing is ever removed. */
  lemma RowCounts(s: Store, st: Stats, row: seq<string>, idx: map<string, nat>)
    ensures var (s', st') := RowStep(s, st, row, idx);
      st'.processed == st.processed + 1 &&
      st'.createdContestants + st'.updatedContestants + |st'.errors| ==
        st.createdContestants + st.updatedContestants + |st.errors| + 1 &&
      st'.createdContestants >= st.createdContestants &&
      st'.createdInscriptions >= st.createdInscriptions &&
      |s'.contestants| == |s.contestants| + (st'.createdContestants - st.createdContestants) &&
      |s'.inscriptions| == |s.inscriptions| + (st'.createdInscriptions - st.createdInscriptions) &&
      s.contestants.Keys <= s'.contestants.Keys &&
      s.inscriptions <= s'.inscriptions
  {
    var f := FieldsOf(row, idx);
    if !Incomplete(f) {
      var c := Catalogued(s, f);
      AreaCatalog(c, f.document, f.level, AreaNames(f.areas));
      AreaCreated(c, f.document, f.level, AreaNames(f.areas));
      if f.document in s.contestants {
        assert c.contestants.Keys == s.contestants.Keys;
      } else {
        assert c.contestants.Keys == s.contestants.Keys + {f.document};
      }
    }
  }

  /** A complete row's inscriptions: its CI is inscribed in each of the row's areas at
      the row's level, and only such triples are added. */
  lemma RowInscriptions(s: Store, st: Stats, row: seq<string>, idx: map<string, nat>, t: Inscription)
    requires !Incomplete(FieldsOf(row, idx))
    ensures var f := FieldsOf(row, idx); var s' := RowStep(s, st, row, idx).0;
      t in s'.inscriptions <==>
        t in s.inscriptions || (t.document == f.document && t.level == f.level && t.area in AreaNames(f.areas))
  {
    var f := FieldsOf(row, idx);
    AreaInscribed(Catalogued(s, f), f.document, f.level, AreaNames(f.areas));
  }

  // ----- the row loop -----

  /** The error list of the loop is the reference list: exactly the incomplete rows,
      each with its ordinal. */
  lemma {:induction false} RowsErrors(s: Store, st: Stats, rows: seq<seq<string>>, idx: map<string, nat>)
    ensures var st' := Rows(s, st, rows, idx).1;
      st'.processed == st.processed + |rows| && st'.errors == st.errors + ErrorsOf(st.processed, rows, idx)
    decreases |rows|
  {
    if rows != [] {
      var init := rows[..|rows| - 1];
      RowsErrors(s, st, init, idx);
      var (s1, st1) := Rows(s, st, init, idx);
      RowReported(s1, st1, rows[|rows| - 1], idx);
    }
  }

  /** An error names row r exactly when r is one of the rows and that row lacks a
      mandatory field. */
  lemma {:induction false} InErrorsOf(base: nat, rows: seq<seq<string>>, idx: map<string, nat>, e: RowError)
    ensures e in ErrorsOf(base, rows, idx) <==>
      e.message == MissingFieldsMessage && base < e.row <= base + |rows| &&
      Incomplete(FieldsOf(rows[e.row - base - 1], idx))
    decreases |rows|
  {
    if rows != [] {
      var init := rows[..|rows| - 1];
      InErrorsOf(base, init, idx, e);
      if e.row < base + |rows| && base < e.row {
        assert rows[e.row - base - 1] == init[e.row - base - 1];
      }
    }
  }

  /** The loop's counters: processed rows are each created, updated or reported;
      contestants grow by the created count, inscriptions by the created inscriptions. */
  lemma {:induction false} RowsCounts(s: Store, st: Stats, rows: seq<seq<string>>, idx: map<string, nat>)
    ensures var (s', st') := Rows(s, st, rows, idx);
      st'.processed == st.processed + |rows| &&
      st'.createdContestants + st'.updatedContestants + |st'.errors| ==
        st.createdContestants + st.updatedContestants + |st.errors| + |rows| &&
      st'.createdContestants >= st.createdContestants &&
      st'.createdInscriptions >= st.createdInscriptions &&
      |s'.contestants| == |s.contestants| + (st'.createdContestants - st.createdContestants) &&
      |s'.inscriptions| == |s.inscriptions| + (st'.createdInscriptions - st.createdInscriptions) &&
      s.contestants.Keys <= s'.contestants.Keys &&
      s.inscriptions <= s'.inscriptions
    decreases |rows|
  {
    if rows != [] {
      var init := rows[..|rows| - 1];
      RowsCounts(s, st, init, idx);
      var (s1, st1) := Rows(s, st, init, idx);
      RowCounts(s1, st1, rows[|rows| - 1], idx);
    }
  }

  /** Every complete row leaves its CI among the contestants. */
  lemma {:induction false} RowsKeepCis(s: Store, st: Stats, rows: seq<seq<string>>, idx: map<string, nat>, j: nat)
    requires j < |rows|
    requires !Incomplete(FieldsOf(rows[j], idx))
    ensures FieldsOf(rows[j], idx).document in Rows(s, st, rows, idx).0.contestants
    decreases |rows|
  {
    var init := rows[..|rows| - 1];
    var (s1, st1) := Rows(s, st, init, idx);
    if j == |rows| - 1 {
      RowStored(s1, st1, rows[j], idx);
    } else {
      assert rows[j] == init[j];
      RowsKeepCis(s, st, init, idx, j);
      RowCounts(s1, st1, rows[|rows| - 1], idx);
    }
  }

  // ----- the file -----

  /** An empty file and a file lacking a required column change nothing; the second
      reports exactly the missing labels, which are then not empty. */
  lemma FileRefused(s: Store, records: seq<seq<string>>)
    ensures var (o, s') := FileOf(s, records);
      (o.EmptyFile? <==> records == []) &&
      (o.MissingColumns? ==>
         s' == s && o.missing != [] &&
         o.missing == Missing(RequiredLabels, IndexMap(NormalizeHeader(records[0]), ExpectedLabels)))
  {
  }

  /** A processed file: every record after the header is counted, the statistics
      balance, the store grows by exactly the counted contestants and inscriptions, and
      the errors are exactly the incomplete rows. */
  lemma FileProcessed(s: Store, records: seq<seq<string>>)
    requires FileOf(s, records).0.Processed?
    ensures var (o, s') := FileOf(s, records); var st := o.stats;
      |records| >= 1 &&
      st.processed == |records| - 1 &&
      st.processed == st.createdContestants + st.updatedContestants + |st.errors| &&
      |s'.contestants| == |s.contestants| + st.createdContestants &&
      |s'.inscriptions| == |s.inscriptions| + st.createdInscriptions &&
      st.errors == ErrorsOf(0, records[1..], IndexMap(NormalizeHeader(records[0]), ExpectedLabels))
  {
    var idx := IndexMap(NormalizeHeader(records[0]), ExpectedLabels);
    RowsCounts(s, NoStats, records[1..], idx);
    RowsErrors(s, NoStats, records[1..], idx);
  }
}
